/**
 The attributes of a key (K2HAttrs): a sorted vector of key and value, and its byte format.
 */
module Attrs {
  import opened Layout
  import opened SizeCodec
  import opened SortedArray

  type AttrList = seq<Item<Bytes>>

  /** One record: both lengths, the key and the value. */
  function Record(attr: Item<Bytes>): Bytes
  {
    Le(|attr.key|, SIZE_T) + Le(|attr.val|, SIZE_T) + attr.key + attr.val
  }

  function Records(attrs: AttrList): Bytes
  {
    if attrs == [] then [] else Record(attrs[0]) + Records(attrs[1..])
  }

  /** Nothing for no attributes, otherwise their number and their records. */
  function Serialized(attrs: AttrList): Bytes
  {
    if attrs == [] then [] else Le(|attrs|, SIZE_T) + Records(attrs)
  }

  method Serialize(attrs: Sorted<Bytes>) returns (bytes: Bytes)
    requires attrs.Valid()
    ensures bytes == Serialized(attrs.items)
  {
    var list := attrs.items;
    if |list| == 0 {
      return [];
    }
    bytes := Le(|list|, SIZE_T);
    var i := 0;
    while i < |list|
      invariant 0 <= i <= |list|
      invariant bytes + Records(list[i..]) == Serialized(list)
    {
      assert list[i..][0] == list[i] && list[i..][1..] == list[i + 1..];
      assert bytes + Record(list[i]) + Records(list[i + 1..]) == bytes + Records(list[i..]);
      bytes := bytes + Record(list[i]);
      i := i + 1;
    }
    assert list[|list|..] == [];
  }

  /** The bytes of a list: the number of attributes, and then both lengths, the key and the value of the first one. */
  lemma SerializedPlainly(attrs: AttrList)
    requires attrs != [] && |Serialized(attrs)| < Limit(SIZE_T)
    ensures
      var buf, key, val := Serialized(attrs), attrs[0].key, attrs[0].val;
      && 24 + |key| + |val| <= |buf|
      && SizeAt(buf, 0) == |attrs| && SizeAt(buf, 8) == |key| && SizeAt(buf, 16) == |val|
      && buf[24..24 + |key|] == key && buf[24 + |key|..24 + |key| + |val|] == val
  {
    RecordsLength(attrs);
    var n, first, more := Le(|attrs|, SIZE_T), Record(attrs[0]), Records(attrs[1..]);
    assert Records(attrs) == first + more;
    Grouped(n, first, more);
    SizeWithin([], |attrs|, first + more);
    RecordRead(n, attrs[0], more);
  }

  // ---------------------------------------------------------------- loading

  /** The length check of the loader, in size_t arithmetic. */
  predicate Passes(rest: nat, keyLength: nat, valLength: nat)
  {
    Wrap(2 * SIZE_T + keyLength + valLength) <= rest
  }

  /** The record is in the buffer. */
  predicate Complete(rest: nat, keyLength: nat, valLength: nat)
  {
    2 * SIZE_T + keyLength + valLength <= rest
  }

  /** The check tells complete records from others unless the sum wraps round to something small. */
  lemma PassesExactly(rest: nat, keyLength: nat, valLength: nat)
    requires rest < Limit(SIZE_T)
    ensures
      (Passes(rest, keyLength, valLength) <==> Complete(rest, keyLength, valLength)) <==>
      (2 * SIZE_T + keyLength + valLength < Limit(SIZE_T) || rest < Wrap(2 * SIZE_T + keyLength + valLength))
  {
    var sum, limit := 2 * SIZE_T + keyLength + valLength, Limit(SIZE_T);
    if sum < limit {
      assert Wrap(sum) == sum;
    }
  }

  /** A length close to the largest size_t passes although no such record can be there. */
  lemma PassesWrongly()
    ensures Passes(2 * SIZE_T, Limit(SIZE_T) - 2 * SIZE_T, 0) && !Complete(2 * SIZE_T, Limit(SIZE_T) - 2 * SIZE_T, 0)
  {
    LimitIs();
  }

  /**
   What a walk over the records of a buffer meets: the pairs of complete records, where it ended, and whether a check
   misled it.
   */
  datatype Walk = Walk(attrs: AttrList, end: nat, misled: bool)

  /** A complete record starts at pos, and the loader takes it. */
  predicate Taken(buf: Bytes, pos: nat)
  {
    && pos + 2 * SIZE_T <= |buf|
    && Passes(|buf| - pos, SizeAt(buf, pos), SizeAt(buf, pos + SIZE_T))
    && Complete(|buf| - pos, SizeAt(buf, pos), SizeAt(buf, pos + SIZE_T))
  }

  function ValPos(buf: Bytes, pos: nat): nat
    requires Taken(buf, pos)
  {
    pos + 2 * SIZE_T + SizeAt(buf, pos)
  }

  function NextPos(buf: Bytes, pos: nat): (r: nat)
    requires Taken(buf, pos)
    ensures pos < r <= |buf|
  {
    ValPos(buf, pos) + SizeAt(buf, pos + SIZE_T)
  }

  function AttrAt(buf: Bytes, pos: nat): Item<Bytes>
    requires Taken(buf, pos)
  {
    Item(buf[pos + 2 * SIZE_T..ValPos(buf, pos)], buf[ValPos(buf, pos)..NextPos(buf, pos)])
  }

  function WalkFrom(buf: Bytes, pos: nat, count: nat): (w: Walk)
    requires pos <= |buf|
    decreases count
  {
    if count == 0 || |buf| < pos + 2 * SIZE_T then Walk([], pos, false)
    else if !Passes(|buf| - pos, SizeAt(buf, pos), SizeAt(buf, pos + SIZE_T)) then Walk([], pos, false)
    else if !Complete(|buf| - pos, SizeAt(buf, pos), SizeAt(buf, pos + SIZE_T)) then Walk([], pos, true)
    else
      var more := WalkFrom(buf, NextPos(buf, pos), count - 1);
      Walk([AttrAt(buf, pos)] + more.attrs, more.end, more.misled)
  }

  /** The map after the pairs are inserted in this order; pairs without a key are dropped. */
  function Put(m: map<Bytes, Bytes>, attrs: AttrList): map<Bytes, Bytes>
    decreases |attrs|
  {
    if attrs == [] then m
    else Put(if attrs[0].key == [] then m else m[attrs[0].key := attrs[0].val], attrs[1..])
  }

  /** The walk over a whole buffer. */
  function WalkAll(buf: Bytes): Walk
  {
    if |buf| < SIZE_T then Walk([], 0, false) else WalkFrom(buf, SIZE_T, SizeAt(buf, 0))
  }

  /**
   Fills the vector from a buffer with the pairs of its complete records.  `misled` tells that a length
   check passed for a record that is not all there, where the program would go on beyond the buffer.
   */
  method Load(attrs: Sorted<Bytes>, buf: Bytes) returns (misled: bool)
    requires attrs.Valid()
    modifies attrs
    ensures attrs.Valid() && misled == WalkAll(buf).misled
    ensures attrs.Abs() == Put(map[], WalkAll(buf).attrs)
  {
    misled := LoadAll(attrs, buf);
    LoadedIs(Dict(attrs.items), buf, misled);
  }

  method LoadAll(attrs: Sorted<Bytes>, buf: Bytes) returns (misled: bool)
    modifies attrs
    ensures Ascending(attrs.items) && Loaded(Dict(attrs.items), buf, misled)
  {
    attrs.Clear();
    if |buf| < SIZE_T {
      return false;
    }
    LoadingStarts(buf);
    misled := LoadRecords(attrs, buf, SizeAt(buf, 0));
  }

  /** A sorted vector that is still being filled. */
  ghost predicate Filling(items: AttrList, buf: Bytes, pos: nat, left: nat)
  {
    forall u: nat {:trigger Look(FILLING, u)} ::
      Look(FILLING, u) ==> Ascending(items) && Loading(Dict(items), buf, pos, left)
  }

  lemma FillingIs(items: AttrList, buf: Bytes, pos: nat, left: nat)
    ensures Filling(items, buf, pos, left) <==> Ascending(items) && Loading(Dict(items), buf, pos, left)
  {
    assert Look(FILLING, 0);
  }

  /** The loop of Load over the records behind their number. */
  method LoadRecords(attrs: Sorted<Bytes>, buf: Bytes, totalCount: nat) returns (misled: bool)
    requires Ascending(attrs.items) && Loading(Dict(attrs.items), buf, SIZE_T, totalCount)
    modifies attrs
    ensures Ascending(attrs.items) && Loaded(Dict(attrs.items), buf, misled)
  {
    FillingIs(attrs.items, buf, SIZE_T, totalCount);
    var pos, cnt := SIZE_T, 0;
    while cnt < totalCount
      invariant 0 <= cnt <= totalCount && 0 <= pos && Filling(attrs.items, buf, pos, totalCount - cnt)
    {
      var goesOn;
      goesOn, misled, pos := LoadStep(attrs, buf, pos, totalCount - cnt);
      if !goesOn {
        return;
      }
      cnt := cnt + 1;
    }
    FillingIs(attrs.items, buf, pos, totalCount - cnt);
    LoadingEnds(Dict(attrs.items), buf, pos, totalCount - cnt);
    misled := false;
  }

  /** One round of the loop of Load: takes the record at pos, or ends the load. */
  method LoadStep(attrs: Sorted<Bytes>, buf: Bytes, pos: nat, ghost left: nat)
    returns (goesOn: bool, misled: bool, next: nat)
    requires 0 < left && Filling(attrs.items, buf, pos, left)
    modifies attrs
    ensures goesOn ==> Filling(attrs.items, buf, next, left - 1)
    ensures !goesOn ==> Ascending(attrs.items) && Loaded(Dict(attrs.items), buf, misled)
  {
    FillingIs(attrs.items, buf, pos, left);
    goesOn, misled := CheckRecord(buf, pos);
    if goesOn {
      next := NextPos(buf, pos);
      LoadRecord(attrs, buf, pos, left);
      FillingIs(attrs.items, buf, next, left - 1);
    } else {
      next := pos;
      LoadingEnds(Dict(attrs.items), buf, pos, left);
    }
  }

  /** The checks before a record is taken. */
  method CheckRecord(buf: Bytes, pos: nat) returns (taken: bool, misled: bool)
    requires pos <= |buf|
    ensures taken <==> Taken(buf, pos)
    ensures forall left: nat | 0 < left && !taken :: WalkFrom(buf, pos, left) == Walk([], pos, misled)
  {
    var rest := |buf| - pos;
    if rest < 2 * SIZE_T {
      return false, false;
    }
    var keyLength, valLength := SizeAt(buf, pos), SizeAt(buf, pos + SIZE_T);
    if !Passes(rest, keyLength, valLength) {
      return false, false;
    }
    taken := Complete(rest, keyLength, valLength);
    misled := !taken;
  }

  /** The map so far, with the pairs still to come, is what the whole buffer gives. */
  ghost predicate Loading(m: map<Bytes, Bytes>, buf: Bytes, pos: nat, left: nat)
  {
    pos <= |buf| &&
      forall u: nat {:trigger Look(LOADING, u)} :: Look(LOADING, u) ==>
        var w := WalkFrom(buf, pos, left);
        Put(m, w.attrs) == Put(map[], WalkAll(buf).attrs) && w.misled == WalkAll(buf).misled
  }

  /** A walk that takes no record any more ends the load. */
  lemma LoadingEnds(m: map<Bytes, Bytes>, buf: Bytes, pos: nat, left: nat)
    requires Loading(m, buf, pos, left) && WalkFrom(buf, pos, left).attrs == []
    ensures Loaded(m, buf, WalkFrom(buf, pos, left).misled)
  {
    assert Look(LOADING, 0);
  }

  /** The map, and whether a check was misled, are what the whole buffer gives. */
  ghost predicate Loaded(m: map<Bytes, Bytes>, buf: Bytes, misled: bool)
  {
    forall u: nat {:trigger Look(LOADING, u)} ::
      Look(LOADING, u) ==> m == Put(map[], WalkAll(buf).attrs) && misled == WalkAll(buf).misled
  }

  lemma LoadedIs(m: map<Bytes, Bytes>, buf: Bytes, misled: bool)
    ensures Loaded(m, buf, misled) <==> m == Put(map[], WalkAll(buf).attrs) && misled == WalkAll(buf).misled
  {
    assert Look(LOADING, 0);
  }

  lemma LoadingStarts(buf: Bytes)
    requires SIZE_T <= |buf|
    ensures Loading(map[], buf, SIZE_T, SizeAt(buf, 0))
  {
  }

  lemma LoadingOn(m: map<Bytes, Bytes>, buf: Bytes, pos: nat, left: nat)
    requires Loading(m, buf, pos, left) && 0 < left && Taken(buf, pos)
    ensures
      var attr := AttrAt(buf, pos);
      Loading(if attr.key == [] then m else m[attr.key := attr.val], buf, NextPos(buf, pos), left - 1)
  {
    assert Look(LOADING, 0);
    PutOn(m, AttrAt(buf, pos), WalkFrom(buf, NextPos(buf, pos), left - 1).attrs);
  }

  lemma PutOn(m: map<Bytes, Bytes>, attr: Item<Bytes>, more: AttrList)
    ensures Put(m, [attr] + more) == Put(if attr.key == [] then m else m[attr.key := attr.val], more)
  {
    assert ([attr] + more)[1..] == more;
  }

  /** One step of Load: inserts the pair of the record at pos. */
  method LoadRecord(attrs: Sorted<Bytes>, buf: Bytes, pos: nat, ghost left: nat)
    requires Ascending(attrs.items) && 0 < left && Loading(Dict(attrs.items), buf, pos, left) && Taken(buf, pos)
    modifies attrs
    ensures Ascending(attrs.items) && Loading(Dict(attrs.items), buf, NextPos(buf, pos), left - 1)
  {
    LoadingOn(attrs.Abs(), buf, pos, left);
    InsertRecord(attrs, buf, pos);
  }

  /** Inserts the pair of the record at pos. */
  method InsertRecord(attrs: Sorted<Bytes>, buf: Bytes, pos: nat)
    requires attrs.Valid() && Taken(buf, pos)
    modifies attrs
    ensures attrs.Valid()
    ensures
      var attr := AttrAt(buf, pos);
      attrs.Abs() == if attr.key == [] then old(attrs.Abs()) else old(attrs.Abs())[attr.key := attr.val]
  {
    var keyPos, valPos := pos + 2 * SIZE_T, ValPos(buf, pos);
    var inserted := attrs.Insert(buf[keyPos..valPos], buf[valPos..NextPos(buf, pos)]);
  }

  /** A buffer of 24 bytes whose only record claims a key of 2^64 - 16 bytes: the check lets it pass. */
  lemma MisledBuffer()
    ensures
      var buf := Le(1, SIZE_T) + Le(Limit(SIZE_T) - 2 * SIZE_T, SIZE_T) + Le(0, SIZE_T);
      |buf| == 24 && WalkAll(buf) == Walk([], SIZE_T, true)
  {
    var n := Limit(SIZE_T) - 2 * SIZE_T;
    var buf := Le(1, SIZE_T) + Le(n, SIZE_T) + Le(0, SIZE_T);
    LimitIs();
    SizeWithin([], 1, Le(n, SIZE_T) + Le(0, SIZE_T));
    assert [] + Le(1, SIZE_T) + (Le(n, SIZE_T) + Le(0, SIZE_T)) == buf;
    SizeWithin(Le(1, SIZE_T), n, Le(0, SIZE_T));
    SizeWithin(Le(1, SIZE_T) + Le(n, SIZE_T), 0, []);
    assert Le(1, SIZE_T) + Le(n, SIZE_T) + Le(0, SIZE_T) + [] == buf;
    PassesWrongly();
    assert SizeAt(buf, 0) == 1 && SizeAt(buf, SIZE_T) == n && SizeAt(buf, 2 * SIZE_T) == 0;
  }

  // ---------------------------------------------------------------- round trip

  /** One record among other bytes. */
  lemma RecordRead(pre: Bytes, attr: Item<Bytes>, post: Bytes)
    requires |attr.key| < Limit(SIZE_T) && |attr.val| < Limit(SIZE_T)
    ensures
      var buf, keyPos := pre + Record(attr) + post, |pre| + 2 * SIZE_T;
      && SizeAt(buf, |pre|) == |attr.key| && SizeAt(buf, |pre| + SIZE_T) == |attr.val|
      && buf[keyPos..keyPos + |attr.key|] == attr.key
      && buf[keyPos + |attr.key|..keyPos + |attr.key| + |attr.val|] == attr.val
  {
    var k, v := Le(|attr.key|, SIZE_T), Le(|attr.val|, SIZE_T);
    FieldsRead(pre, k, v, attr.key, attr.val, post);
    WrittenRead(|attr.key|, SIZE_T);
    WrittenRead(|attr.val|, SIZE_T);
  }

  /** Four fields among other bytes, the first two of eight bytes. */
  lemma FieldsRead(pre: Bytes, k: Bytes, v: Bytes, key: Bytes, val: Bytes, post: Bytes)
    requires |k| == |v| == SIZE_T
    ensures
      var buf, keyPos := pre + (k + v + key + val) + post, |pre| + 2 * SIZE_T;
      && buf[|pre|..|pre| + SIZE_T] == k && buf[|pre| + SIZE_T..|pre| + SIZE_T + SIZE_T] == v
      && buf[keyPos..keyPos + |key|] == key && buf[keyPos + |key|..keyPos + |key| + |val|] == val
  {
    assert k + v + key + val + [] == k + v + key + val;
    PartsRead(pre, k, v, key, val, [], post);
    var buf, n := pre + (k + v + key + val) + post, |pre|;
    LiesAt(buf, n, k);
    LiesAt(buf, n + |k|, v);
    LiesAt(buf, n + |k| + |v|, key);
    LiesAt(buf, n + |k| + |v| + |key|, val);
  }

  /** A record that was written is taken as it was. */
  lemma RecordTaken(pre: Bytes, attr: Item<Bytes>, post: Bytes)
    requires |Record(attr)| < Limit(SIZE_T)
    ensures
      var buf := pre + Record(attr) + post;
      Taken(buf, |pre|) && AttrAt(buf, |pre|) == attr && NextPos(buf, |pre|) == |pre + Record(attr)|
  {
    RecordRead(pre, attr, post);
    WholePasses(|pre + Record(attr) + post| - |pre|, |attr.key|, |attr.val|);
  }

  /** A complete record whose length is a size_t passes the check. */
  lemma WholePasses(rest: nat, keyLength: nat, valLength: nat)
    requires 2 * SIZE_T + keyLength + valLength <= rest && 2 * SIZE_T + keyLength + valLength < Limit(SIZE_T)
    ensures Passes(rest, keyLength, valLength) && Complete(rest, keyLength, valLength)
  {
    assert Wrap(2 * SIZE_T + keyLength + valLength) == 2 * SIZE_T + keyLength + valLength;
  }

  /** A walk over the records of a list meets them all. */
  lemma {:induction false} WalkRecords(pre: Bytes, attrs: AttrList)
    requires |Records(attrs)| < Limit(SIZE_T)
    ensures WalkFrom(pre + Records(attrs), |pre|, |attrs|) == Walk(attrs, |pre| + |Records(attrs)|, false)
    decreases |attrs|
  {
    if attrs != [] {
      var pre', post := pre + Record(attrs[0]), Records(attrs[1..]);
      RecordTaken(pre, attrs[0], post);
      assert pre + Records(attrs) == pre' + post;
      WalkRecords(pre', attrs[1..]);
      assert [attrs[0]] + attrs[1..] == attrs;
    }
  }

  lemma {:induction false} PutAppend(m: map<Bytes, Bytes>, a: AttrList, b: AttrList)
    ensures Put(m, a + b) == Put(Put(m, a), b)
    decreases |a|
  {
    if a == [] {
      assert a + b == b;
    } else {
      assert (a + b)[1..] == a[1..] + b;
      PutAppend(if a[0].key == [] then m else m[a[0].key := a[0].val], a[1..], b);
    }
  }

  /** Inserting the pairs of a sorted list gives its map. */
  lemma {:induction false} PutAll(attrs: AttrList)
    requires Ascending(attrs)
    ensures Put(map[], attrs) == Dict(attrs)
    decreases |attrs|
  {
    if attrs != [] {
      var n := |attrs| - 1;
      assert attrs == attrs[..n] + [attrs[n]];
      PutAppend(map[], attrs[..n], [attrs[n]]);
      PutAll(attrs[..n]);
    }
  }

  lemma {:induction false} RecordsLength(attrs: AttrList)
    ensures |attrs| <= |Records(attrs)|
  {
    if attrs != [] {
      RecordsLength(attrs[1..]);
    }
  }

  /** The last key of a sorted list is its greatest. */
  lemma LastGreatest(a: AttrList, k: Bytes)
    requires Ascending(a) && a != [] && k in Dict(a)
    ensures k == a[|a| - 1].key || Less(k, a[|a| - 1].key)
  {
    var i := DictHas(a, k);
  }

  /** Two sorted lists with the same map are the same list. */
  lemma {:induction false} SameItems(a: AttrList, b: AttrList)
    requires Ascending(a) && Ascending(b) && Dict(a) == Dict(b)
    ensures a == b
    decreases |a|
  {
    if a != [] {
      DictAt(a, |a| - 1);
    }
    if b != [] {
      DictAt(b, |b| - 1);
    }
    if a != [] && b != [] {
      var m, n := |a| - 1, |b| - 1;
      LastGreatest(a, b[n].key);
      LastGreatest(b, a[m].key);
      CompareTotal(a[m].key, b[n].key);
      assert a[m] == b[n];
      LastOut(a);
      LastOut(b);
      SameItems(a[..m], b[..n]);
      assert a == a[..m] + [a[m]] && b == b[..n] + [b[n]];
    }
  }

  lemma LastOut(a: AttrList)
    requires Ascending(a) && a != []
    ensures Dict(a[..|a| - 1]) == Dict(a) - {a[|a| - 1].key}
  {
    ErasedDict(a, |a| - 1);
    assert a[..|a| - 1] + a[|a|..] == a[..|a| - 1];
  }

  /** The loader meets what was serialized, the whole of it. */
  lemma SerializedWalked(attrs: AttrList)
    requires |Serialized(attrs)| < Limit(SIZE_T)
    ensures WalkAll(Serialized(attrs)) == Walk(attrs, |Serialized(attrs)|, false)
  {
    if attrs != [] {
      RecordsLength(attrs);
      SizeWithin([], |attrs|, Records(attrs));
      assert [] + Le(|attrs|, SIZE_T) + Records(attrs) == Serialized(attrs);
      WalkRecords(Le(|attrs|, SIZE_T), attrs);
    }
  }

  /** Loading what was serialized gives back the same vector. */
  lemma SerializedLoaded(attrs: AttrList, loaded: AttrList)
    requires Ascending(attrs) && |Serialized(attrs)| < Limit(SIZE_T)
    requires Ascending(loaded) && Dict(loaded) == Put(map[], WalkAll(Serialized(attrs)).attrs)
    ensures loaded == attrs
  {
    SerializedWalked(attrs);
    PutAll(attrs);
    SameItems(loaded, attrs);
  }

  /** A record that is taken is what the buffer spells there. */
  lemma TakenRecord(buf: Bytes, pos: nat)
    requires Taken(buf, pos)
    ensures Record(AttrAt(buf, pos)) == buf[pos..NextPos(buf, pos)]
  {
    ReadWritten(buf[pos..pos + SIZE_T]);
    ReadWritten(buf[pos + SIZE_T..pos + SIZE_T + SIZE_T]);
    FourParts(buf, pos, pos + SIZE_T, pos + SIZE_T + SIZE_T, ValPos(buf, pos), NextPos(buf, pos));
  }

  lemma FourParts(buf: Bytes, a: nat, b: nat, c: nat, d: nat, e: nat)
    requires a <= b <= c <= d <= e <= |buf|
    ensures buf[a..e] == buf[a..b] + buf[b..c] + buf[c..d] + buf[d..e]
  {
    TwoParts(buf, a, b, c);
    TwoParts(buf, a, c, d);
    TwoParts(buf, a, d, e);
  }

  lemma TwoParts(buf: Bytes, a: nat, b: nat, c: nat)
    requires a <= b <= c <= |buf|
    ensures buf[a..c] == buf[a..b] + buf[b..c]
  {
  }

  lemma RecordsOn(attr: Item<Bytes>, more: AttrList)
    ensures Records([attr] + more) == Record(attr) + Records(more)
  {
    assert ([attr] + more)[1..] == more;
  }

  /**
   What a walk met is what the buffer spells from where it began to where it ended: whole records, in order, and no
   others.
   */
  lemma {:induction false} WalkedRecords(buf: Bytes, pos: nat, count: nat)
    requires pos <= |buf|
    ensures
      var w := WalkFrom(buf, pos, count);
      pos <= w.end <= |buf| && |w.attrs| <= count && buf[pos..w.end] == Records(w.attrs)
    decreases count
  {
    if count > 0 && Taken(buf, pos) {
      var next, more := NextPos(buf, pos), WalkFrom(buf, NextPos(buf, pos), count - 1);
      WalkedRecords(buf, next, count - 1);
      TakenRecord(buf, pos);
      RecordsOn(AttrAt(buf, pos), more.attrs);
      TwoParts(buf, pos, next, more.end);
    }
  }
}
