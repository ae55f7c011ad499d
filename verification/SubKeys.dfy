/**
 The subkey list of a key (K2HSubKeys): its sorted vector and its byte format.
 */
module SubKeys {
  import opened Layout
  import opened SizeCodec
  import opened SortedArray

  type Keys = seq<Item<()>>

  /** One record: the length and the bytes. */
  function Record(key: Bytes): Bytes
  {
    Le(|key|, SIZE_T) + key
  }

  function Records(keys: Keys): Bytes
  {
    if keys == [] then [] else Record(keys[0].key) + Records(keys[1..])
  }

  /** Nothing for no subkeys, otherwise their number and their records. */
  function Serialized(keys: Keys): Bytes
  {
    if keys == [] then [] else Le(|keys|, SIZE_T) + Records(keys)
  }

  /** Builds the byte format, record after record. */
  method Serialize(subkeys: Sorted<()>) returns (bytes: Bytes)
    requires subkeys.Valid()
    ensures bytes == Serialized(subkeys.items)
  {
    var keys := subkeys.items;
    if |keys| == 0 {
      return [];
    }
    bytes := Le(|keys|, SIZE_T);
    var i := 0;
    while i < |keys|
      invariant 0 <= i <= |keys|
      invariant bytes + Records(keys[i..]) == Serialized(keys)
    {
      assert keys[i..][0] == keys[i] && keys[i..][1..] == keys[i + 1..];
      assert bytes + Record(keys[i].key) + Records(keys[i + 1..]) == bytes + Records(keys[i..]);
      bytes := bytes + Record(keys[i].key);
      i := i + 1;
    }
    assert keys[|keys|..] == [];
  }

  // ---------------------------------------------------------------- loading

  /**
   How loading ends: with all records, at one that is found to be cut short, or at one that is cut short where
   the loader does not find it and reads on behind the buffer.
   */
  datatype Ending = Whole | TooShort | Misled

  /** What loading meets: the subkeys of complete records, and how it ends. */
  datatype Reading = Reading(keys: set<Bytes>, ending: Ending)

  /** The record of a subkey of n bytes is in what is left of the buffer. */
  predicate Complete(left: nat, n: nat)
  {
    SIZE_T + n <= left
  }

  /** The check of the loader, which counts the bytes of the number in front of the records as left, too. */
  predicate Passes(left: nat, n: nat)
  {
    SIZE_T + n <= left + SIZE_T
  }

  ghost function WalkFrom(buf: Bytes, pos: nat, count: nat): Reading
    requires pos <= |buf|
    decreases count
  {
    if count == 0 then Reading({}, Whole)
    else if |buf| < pos + SIZE_T then Reading({}, Misled)
    else
      var n := SizeAt(buf, pos);
      if !Passes(|buf| - pos, n) then Reading({}, TooShort)
      else if !Complete(|buf| - pos, n) then Reading({}, Misled)
      else
        var more := WalkFrom(buf, pos + SIZE_T + n, count - 1);
        Reading({buf[pos + SIZE_T..pos + SIZE_T + n]} + more.keys, more.ending)
  }

  ghost function WalkAll(buf: Bytes): Reading
  {
    if buf == [] then Reading({}, Whole)
    else if |buf| < SIZE_T then Reading({}, Misled)
    else WalkFrom(buf, SIZE_T, SizeAt(buf, 0))
  }

  /** The subkeys in a buffer. */
  ghost function Listed(buf: Bytes): set<Bytes>
  {
    WalkAll(buf).keys - {[]}
  }

  /** Fills the vector from a buffer, as far as its records are complete. */
  method Load(subkeys: Sorted<()>, buf: Bytes) returns (ending: Ending)
    requires subkeys.Valid()
    modifies subkeys
    ensures subkeys.Valid() && subkeys.Abs().Keys == Listed(buf) && ending == WalkAll(buf).ending
  {
    subkeys.Clear();
    if |buf| == 0 {
      return Whole;
    }
    if |buf| < SIZE_T {
      return Misled;
    }
    var totalCount := SizeAt(buf, 0);
    var rest, pos, cnt := |buf|, SIZE_T, 0;
    while cnt < totalCount
      invariant 0 <= cnt <= totalCount && 0 <= pos && rest == |buf| - pos + SIZE_T >= SIZE_T && subkeys.Valid()
      invariant subkeys.Abs().Keys + (WalkFrom(buf, pos, totalCount - cnt).keys - {[]}) == Listed(buf)
      invariant WalkFrom(buf, pos, totalCount - cnt).ending == WalkAll(buf).ending
    {
      // rest is never less than the length of a length here
      if |buf| < pos + SIZE_T {
        return Misled;
      }
      var n := SizeAt(buf, pos);
      rest := rest - SIZE_T;
      if rest < n {
        return TooShort;
      }
      if |buf| < pos + SIZE_T + n {
        return Misled;
      }
      InsertKey(subkeys, buf[pos + SIZE_T..pos + SIZE_T + n],
        WalkFrom(buf, pos + SIZE_T + n, totalCount - cnt - 1).keys);
      pos, rest, cnt := pos + SIZE_T + n, rest - n, cnt + 1;
    }
    return Whole;
  }

  /** Inserts a subkey; the empty one is dropped. */
  method InsertKey(subkeys: Sorted<()>, key: Bytes, ghost more: set<Bytes>)
    requires subkeys.Valid()
    modifies subkeys
    ensures subkeys.Valid() && subkeys.Abs().Keys + (more - {[]}) == old(subkeys.Abs()).Keys + (({key} + more) - {[]})
  {
    var inserted := subkeys.Insert(key, ());
  }

  ghost function KeySet(keys: Keys): set<Bytes>
  {
    set i | 0 <= i < |keys| :: keys[i].key
  }

  lemma {:induction false} DictKeys(keys: Keys)
    ensures Dict(keys).Keys == KeySet(keys)
  {
    if keys != [] {
      var n := |keys| - 1;
      DictKeys(keys[..n]);
      assert KeySet(keys) == KeySet(keys[..n]) + {keys[n].key} by {
        assert forall i | 0 <= i < n :: keys[..n][i] == keys[i];
      }
    }
  }

  lemma LiesBoth(buf: Bytes, pos: nat, a: Bytes, b: Bytes)
    requires Lies(buf, pos, a + b)
    ensures Lies(buf, pos, a) && Lies(buf, pos + |a|, b)
  {
    LiesAt(buf, pos, a + b);
    var part := buf[pos..pos + |a + b|];
    assert buf[pos..pos + |a|] == part[..|a|] && buf[pos + |a|..pos + |a| + |b|] == part[|a|..];
  }

  lemma SizeLies(buf: Bytes, pos: nat, n: nat)
    requires Lies(buf, pos, Le(n, SIZE_T)) && n < Limit(SIZE_T)
    ensures SizeAt(buf, pos) == n
  {
    LiesAt(buf, pos, Le(n, SIZE_T));
    WrittenRead(n, SIZE_T);
  }

  /** The walk from pos on takes n records with these keys, and then `more` from `next` on. */
  ghost predicate Leads(buf: Bytes, pos: nat, n: nat, keys: set<Bytes>, next: nat, more: nat)
  {
    pos <= |buf| && next <= |buf| && forall u: nat {:trigger Look(LEADS, u)} :: Look(LEADS, u) ==>
      var rest := WalkFrom(buf, next, more);
      WalkFrom(buf, pos, n + more) == Reading(keys + rest.keys, rest.ending)
  }

  lemma LeadsNowhere(buf: Bytes, pos: nat, more: nat)
    requires pos <= |buf|
    ensures Leads(buf, pos, 0, {}, pos, more)
  {
  }

  /** One record, and then the others. */
  lemma LeadsOn(buf: Bytes, pos: nat, key: Bytes, mid: nat, n: nat, keys: set<Bytes>, next: nat, more: nat, rest: nat,
                all: set<Bytes>)
    requires all == {key} + keys && rest == n + more
    requires Leads(buf, pos, 1, {key}, mid, rest) && Leads(buf, mid, n, keys, next, more)
    ensures Leads(buf, pos, n + 1, all, next, more)
  {
    assert Look(LEADS, 0);
    assert {key} + (keys + WalkFrom(buf, next, more).keys) == all + WalkFrom(buf, next, more).keys;
  }

  /** A record that is there is taken. */
  lemma WalkedOne(buf: Bytes, pos: nat, key: Bytes, count: nat)
    requires Lies(buf, pos, Record(key)) && |key| < Limit(SIZE_T)
    ensures Leads(buf, pos, 1, {key}, pos + |Record(key)|, count)
  {
    LiesBoth(buf, pos, Le(|key|, SIZE_T), key);
    SizeLies(buf, pos, |key|);
    LiesAt(buf, pos, Le(|key|, SIZE_T));
    LiesAt(buf, pos + SIZE_T, key);
    WalkStep(buf, pos, count);
  }

  /** The walk at a complete record. */
  lemma WalkStep(buf: Bytes, pos: nat, count: nat)
    requires pos + SIZE_T <= |buf| && Complete(|buf| - pos, SizeAt(buf, pos))
    ensures
      var next := pos + SIZE_T + SizeAt(buf, pos);
      var more := WalkFrom(buf, next, count);
      WalkFrom(buf, pos, 1 + count) == Reading({buf[pos + SIZE_T..next]} + more.keys, more.ending)
  {
  }

  lemma RecordsFirst(keys: Keys)
    requires keys != []
    ensures Records(keys) == Record(keys[0].key) + Records(keys[1..])
    ensures |Records(keys)| == |Record(keys[0].key)| + |Records(keys[1..])|
  {
  }

  /** The records of keys that are there are taken, and then those behind them. */
  lemma {:induction false} WalkedOver(buf: Bytes, pos: nat, keys: Keys, more: nat)
    requires Lies(buf, pos, Records(keys)) && |Records(keys)| < Limit(SIZE_T)
    ensures Leads(buf, pos, |keys|, KeySet(keys), pos + |Records(keys)|, more)
    decreases |keys|
  {
    if keys == [] {
      assert KeySet(keys) == {} && |Records(keys)| == 0;
      LeadsNowhere(buf, pos, more);
    } else {
      var key, others := keys[0].key, keys[1..];
      var mid, rest := pos + |Record(key)|, |others| + more;
      var next := mid + |Records(others)|;
      RecordsFirst(keys);
      LiesBoth(buf, pos, Record(key), Records(others));
      WalkedOne(buf, pos, key, rest);
      WalkedOver(buf, mid, others, more);
      KeySetFirst(keys);
      LeadsOn(buf, pos, key, mid, |others|, KeySet(others), next, more, rest, KeySet(keys));
      assert next == pos + |Records(keys)| && |others| + 1 == |keys|;
    }
  }

  lemma KeySetFirst(keys: Keys)
    requires keys != []
    ensures KeySet(keys) == {keys[0].key} + KeySet(keys[1..])
  {
    assert forall i | 0 < i < |keys| :: keys[i] == keys[1..][i - 1];
  }

  lemma {:induction false} RecordsLength(keys: Keys)
    ensures |keys| <= |Records(keys)|
  {
    if keys != [] {
      RecordsLength(keys[1..]);
    }
  }

  /** The number and the records in front of anything else are taken. */
  lemma WalkedAll(keys: Keys, n: nat, post: Bytes)
    requires |keys| <= n < Limit(SIZE_T) && |Records(keys)| < Limit(SIZE_T)
    ensures
      var buf := Le(n, SIZE_T) + Records(keys) + post;
      SizeAt(buf, 0) == n && Leads(buf, SIZE_T, |keys|, KeySet(keys), SIZE_T + |Records(keys)|, n - |keys|)
  {
    var count := Le(n, SIZE_T);
    var buf := count + Records(keys) + post;
    Grouped(count, Records(keys), post);
    SizeFirst(n, Records(keys) + post);
    Cut(count, Records(keys), post);
    LiesAt(buf, SIZE_T, Records(keys));
    WalkedOver(buf, SIZE_T, keys, n - |keys|);
  }

  lemma SizeFirst(n: nat, post: Bytes)
    requires n < Limit(SIZE_T)
    ensures SizeAt(Le(n, SIZE_T) + post, 0) == n
  {
    SizeWithin([], n, post);
    assert [] + Le(n, SIZE_T) + post == Le(n, SIZE_T) + post;
  }

  /** The bytes of a list: the number of subkeys, and then, subkey by subkey, its length and its bytes. */
  lemma SerializedPlainly(keys: Keys)
    requires keys != [] && |Serialized(keys)| < Limit(SIZE_T)
    ensures
      var buf, key := Serialized(keys), keys[0].key;
      && 16 + |key| <= |buf| && SizeAt(buf, 0) == |keys| && SizeAt(buf, 8) == |key| && buf[16..16 + |key|] == key
      && buf[16 + |key|..] == Records(keys[1..])
  {
    var key, more := keys[0].key, Records(keys[1..]);
    RecordsLength(keys);
    assert Serialized(keys) == Le(|keys|, SIZE_T) + (Le(|key|, SIZE_T) + key + more);
    RecordBehind(|keys|, |key|, key, more);
  }

  lemma RecordBehind(n: nat, k: nat, key: Bytes, more: Bytes)
    requires n < Limit(SIZE_T) && k < Limit(SIZE_T)
    ensures
      var buf := Le(n, SIZE_T) + (Le(k, SIZE_T) + key + more);
      SizeAt(buf, 0) == n && SizeAt(buf, 8) == k && buf[16..16 + |key|] == key && buf[16 + |key|..] == more
  {
    var x, y := Le(n, SIZE_T), Le(k, SIZE_T);
    SizeFirst(n, y + key + more);
    SizeWithin(x, k, key + more);
    Grouped(y, key, more);
    Grouped(x, y, key + more);
    Behind(x + y, key, more);
  }

  lemma Behind(pre: Bytes, key: Bytes, more: Bytes)
    ensures
      var buf := pre + (key + more);
      buf[|pre|..|pre| + |key|] == key && buf[|pre| + |key|..] == more
  {
  }

  lemma LeadsIs(buf: Bytes, n: nat, keys: set<Bytes>, next: nat, more: nat)
    requires SIZE_T <= |buf| && SizeAt(buf, 0) == n + more && Leads(buf, SIZE_T, n, keys, next, more)
    ensures
      var rest := WalkFrom(buf, next, more);
      WalkAll(buf) == Reading(keys + rest.keys, rest.ending)
  {
    assert Look(LEADS, 0);
  }

  /** Loading what was serialized finds exactly the subkeys that were there, and ends behind the last of them. */
  lemma SerializedListed(keys: Keys)
    requires Ascending(keys) && |Serialized(keys)| < Limit(SIZE_T)
    ensures Listed(Serialized(keys)) == Dict(keys).Keys && WalkAll(Serialized(keys)).ending == Whole
  {
    DictKeys(keys);
    if keys != [] {
      RecordsLength(keys);
      WalkedAll(keys, |keys|, []);
      assert Le(|keys|, SIZE_T) + Records(keys) + [] == Serialized(keys);
      LeadsIs(Serialized(keys), |keys|, KeySet(keys), |Serialized(keys)|, 0);
    }
  }

  // ---------------------------------------------------------------- lists that are cut short

  /** The check tells complete records from others unless at most the bytes of one length are missing. */
  lemma PassesExactly(left: nat, n: nat)
    ensures (Passes(left, n) <==> Complete(left, n)) <==> !(left < SIZE_T + n <= left + SIZE_T)
  {
  }

  lemma RecordsSplit(keys: Keys, last: Item<()>)
    ensures Records(keys + [last]) == Records(keys) + Record(last.key)
    decreases |keys|
  {
    if keys == [] {
      assert keys + [last] == [last];
    } else {
      assert (keys + [last])[1..] == keys[1..] + [last];
      RecordsSplit(keys[1..], last);
      Grouped(Record(keys[0].key), Records(keys[1..]), Record(last.key));
    }
  }

  /** How the walk ends that is to take one record. */
  lemma OneRecord(buf: Bytes, pos: nat)
    requires pos <= |buf|
    ensures
      var left := |buf| - pos;
      WalkFrom(buf, pos, 1).ending ==
        if left < SIZE_T then Misled
        else if !Passes(left, SizeAt(buf, pos)) then TooShort
        else if !Complete(left, SizeAt(buf, pos)) then Misled
        else Whole
  {
    if pos + SIZE_T <= |buf| && Complete(|buf| - pos, SizeAt(buf, pos)) {
      assert WalkFrom(buf, pos + SIZE_T + SizeAt(buf, pos), 0) == Reading({}, Whole);
    }
  }

  /** The beginning of a record at the end of a buffer. */
  lemma CutRecord(pre: Bytes, key: Bytes, kept: nat)
    requires kept < |Record(key)| < Limit(SIZE_T)
    ensures
      var ending := WalkFrom(pre + Record(key)[..kept], |pre|, 1).ending;
      ending != Whole && (ending == Misled <==> kept < SIZE_T || |key| <= kept)
  {
    OneRecord(pre + Record(key)[..kept], |pre|);
    if SIZE_T <= kept {
      CutLength(pre, key, kept);
    }
  }

  lemma CutLength(pre: Bytes, key: Bytes, kept: nat)
    requires SIZE_T <= kept < |Record(key)| < Limit(SIZE_T)
    ensures
      var buf := pre + Record(key)[..kept];
      |pre| + SIZE_T <= |buf| && SizeAt(buf, |pre|) == |key|
  {
    var part := Record(key)[..kept];
    assert part == Le(|key|, SIZE_T) + key[..kept - SIZE_T];
    assert pre + part == pre + Le(|key|, SIZE_T) + key[..kept - SIZE_T];
    SizeWithin(pre, |key|, key[..kept - SIZE_T]);
  }

  lemma CutBytes(keys: Keys, last: Item<()>, cut: nat)
    requires cut <= |Record(last.key)|
    ensures
      var buf, pre := Serialized(keys + [last]), Le(|keys| + 1, SIZE_T) + Records(keys);
      cut <= |buf| && buf[..|buf| - cut] == pre + Record(last.key)[..|Record(last.key)| - cut]
  {
    var pre, record := Le(|keys| + 1, SIZE_T) + Records(keys), Record(last.key);
    RecordsSplit(keys, last);
    assert Serialized(keys + [last]) == pre + record;
  }

  /**
   A list that is cut short within its last record misleads the loader exactly when at most eight bytes are missing, or
   the length of the last subkey is cut itself.
   */
  lemma CutExactly(keys: Keys, last: Item<()>, cut: nat)
    requires |Serialized(keys + [last])| < Limit(SIZE_T) && 0 < cut <= SIZE_T + |last.key|
    ensures
      var buf := Serialized(keys + [last]);
      cut <= |buf| && (WalkAll(buf[..|buf| - cut]).ending == Misled <==> cut <= SIZE_T || |last.key| < cut)
  {
    var record := Record(last.key);
    var pre, part := Le(|keys| + 1, SIZE_T) + Records(keys), record[..|record| - cut];
    RecordsSplit(keys, last);
    RecordsLength(keys);
    CutBytes(keys, last, cut);
    WalkedAll(keys, |keys| + 1, part);
    LeadsIs(pre + part, |keys|, KeySet(keys), |pre|, 1);
    CutRecord(pre, last.key, |record| - cut);
  }
}
