/**
 The sorted vector that K2HAttrs and K2HSubKeys keep: its order of byte strings, and its search,
 insertion and removal, which refine the operations of a finite map.
 */
module SortedArray {
  import opened Layout

  // ---------------------------------------------------------------- the order

  /** memcmp over the first n bytes. */
  function MemCmp(a: Bytes, b: Bytes, n: nat): int
    requires n <= |a| && n <= |b|
  {
    if n == 0 then 0
    else if a[0] != b[0] then a[0] - b[0]
    else MemCmp(a[1..], b[1..], n - 1)
  }

  /** The common bytes first, then the length. */
  function Compare(a: Bytes, b: Bytes): int
  {
    var n := if |a| < |b| then |a| else |b|;
    var result := MemCmp(a, b, n);
    if result != 0 then result
    else if |a| < |b| then -1
    else if |a| > |b| then 1
    else 0
  }

  predicate Less(a: Bytes, b: Bytes)
  {
    Compare(a, b) < 0
  }

  lemma CompareStep(a: Bytes, b: Bytes)
    ensures a == [] || b == [] ==> Compare(a, b) == if a == b then 0 else if a == [] then -1 else 1
    ensures a != [] && b != [] ==> Compare(a, b) == if a[0] != b[0] then a[0] - b[0] else Compare(a[1..], b[1..])
  {
  }

  /** Only equal strings compare equal, and swapping the strings turns the order round. */
  lemma {:induction false} CompareTotal(a: Bytes, b: Bytes)
    ensures Compare(a, b) == 0 <==> a == b
    ensures Less(a, b) <==> Compare(b, a) > 0
    decreases |a|
  {
    CompareStep(a, b);
    CompareStep(b, a);
    if a != [] && b != [] && a[0] == b[0] {
      CompareTotal(a[1..], b[1..]);
      assert a == [a[0]] + a[1..] && b == [b[0]] + b[1..];
    }
  }

  /** Behind a common beginning the smaller byte decides; what ends there comes before what goes on. */
  lemma {:induction false} ComparedPlainly(common: Bytes, x: Byte, a: Bytes, y: Byte, b: Bytes)
    ensures x < y ==> Less(common + [x] + a, common + [y] + b)
    ensures Less(common, common + [x] + a)
    decreases |common|
  {
    var s, t := common + [x] + a, common + [y] + b;
    CompareStep(s, t);
    CompareStep(common, s);
    if common != [] {
      assert s[1..] == common[1..] + [x] + a && t[1..] == common[1..] + [y] + b;
      ComparedPlainly(common[1..], x, a, y, b);
    }
  }

  lemma {:induction false} LessTransitive(a: Bytes, b: Bytes, c: Bytes)
    requires Less(a, b) && Less(b, c)
    ensures Less(a, c)
    decreases |a|
  {
    CompareStep(a, b);
    CompareStep(b, c);
    CompareStep(a, c);
    if a != [] && b != [] && c != [] && a[0] == b[0] && b[0] == c[0] {
      LessTransitive(a[1..], b[1..], c[1..]);
    }
  }

  // ---------------------------------------------------------------- sorted vectors

  datatype Item<V> = Item(key: Bytes, val: V)

  /** Strictly ascending, and no empty key. */
  ghost predicate Ascending<V>(items: seq<Item<V>>)
  {
    && (forall i | 0 <= i < |items| :: items[i].key != [])
    && (forall i, j | 0 <= i < j < |items| :: Less(items[i].key, items[j].key))
  }

  /** What the vector maps to what. */
  ghost function Dict<V>(items: seq<Item<V>>): (m: map<Bytes, V>)
  {
    if items == [] then map[] else Dict(items[..|items| - 1])[items[|items| - 1].key := items[|items| - 1].val]
  }

  lemma {:induction false} DictAt<V>(items: seq<Item<V>>, i: nat)
    requires Ascending(items) && i < |items|
    ensures items[i].key in Dict(items) && Dict(items)[items[i].key] == items[i].val
  {
    var n := |items| - 1;
    if i < n {
      DictAt(items[..n], i);
      CompareTotal(items[i].key, items[n].key);
    }
  }

  lemma {:induction false} DictHas<V>(items: seq<Item<V>>, k: Bytes) returns (i: nat)
    requires k in Dict(items)
    ensures i < |items| && items[i].key == k
  {
    i := |items| - 1;
    if items[i].key != k {
      i := DictHas(items[..i], k);
    }
  }

  /** Between items[i-1] and items[i] is the place of the key. */
  ghost predicate PlaceOf<V>(items: seq<Item<V>>, key: Bytes, pos: nat)
  {
    && pos <= |items|
    && (forall i | 0 <= i < pos :: Less(items[i].key, key))
    && (forall i | pos <= i < |items| :: Less(key, items[i].key))
  }

  /** A key with a place between the items is not one of theirs. */
  lemma PlaceNotIn<V>(items: seq<Item<V>>, key: Bytes, pos: nat)
    requires PlaceOf(items, key, pos)
    ensures key !in Dict(items)
  {
    if key in Dict(items) {
      var i := DictHas(items, key);
      CompareTotal(key, key);
      assert false;
    }
  }

  /** Putting an item in its place keeps the order. */
  lemma InsertedAscending<V>(items: seq<Item<V>>, item: Item<V>, pos: nat)
    requires Ascending(items) && item.key != [] && PlaceOf(items, item.key, pos)
    ensures Ascending(items[..pos] + [item] + items[pos..])
  {
    var items' := items[..pos] + [item] + items[pos..];
    forall i, j | 0 <= i < j < |items'|
      ensures Less(items'[i].key, items'[j].key)
    {
      assert items'[i] == if i < pos then items[i] else if i == pos then item else items[i - 1];
      assert items'[j] == if j < pos then items[j] else if j == pos then item else items[j - 1];
    }
  }

  /** Putting an item in its place adds its pair to the map. */
  lemma {:induction false} InsertedDict<V>(items: seq<Item<V>>, item: Item<V>, pos: nat)
    requires Ascending(items) && PlaceOf(items, item.key, pos)
    ensures Dict(items[..pos] + [item] + items[pos..]) == Dict(items)[item.key := item.val]
    decreases |items|
  {
    var items', n := items[..pos] + [item] + items[pos..], |items| - 1;
    if pos == |items| {
      assert items'[..|items|] == items;
    } else {
      var first := items[..n];
      assert items'[..n + 1] == first[..pos] + [item] + first[pos..] && items'[n + 1] == items[n];
      InsertedDict(first, item, pos);
      CompareTotal(item.key, items[n].key);
      assert Dict(items') == Dict(first)[item.key := item.val][items[n].key := items[n].val];
    }
  }

  /** Taking an item out keeps the order. */
  lemma ErasedAscending<V>(items: seq<Item<V>>, pos: nat)
    requires Ascending(items) && pos < |items|
    ensures Ascending(items[..pos] + items[pos + 1..])
  {
    var items' := items[..pos] + items[pos + 1..];
    assert forall i | 0 <= i < |items'| :: items'[i] == items[if i < pos then i else i + 1];
  }

  /** Taking an item out takes its key out of the map. */
  lemma {:induction false} ErasedDict<V>(items: seq<Item<V>>, pos: nat)
    requires Ascending(items) && pos < |items|
    ensures Dict(items[..pos] + items[pos + 1..]) == Dict(items) - {items[pos].key}
    decreases |items|
  {
    var items', n := items[..pos] + items[pos + 1..], |items| - 1;
    if pos == n {
      assert items' == items[..n];
      ItemPlace(items, n);
      PlaceNotIn(items[..n], items[n].key, n);
      assert Dict(items) - {items[n].key} == Dict(items[..n]);
    } else {
      var first := items[..n];
      assert items'[..n - 1] == first[..pos] + first[pos + 1..] && items'[n - 1] == items[n];
      ErasedDict(first, pos);
      CompareTotal(items[pos].key, items[n].key);
      assert Dict(items') == (Dict(first) - {items[pos].key})[items[n].key := items[n].val];
    }
  }

  /** Item pos lies between the others. */
  lemma ItemPlace<V>(items: seq<Item<V>>, pos: nat)
    requires Ascending(items) && pos < |items|
    ensures PlaceOf(items[..pos] + items[pos + 1..], items[pos].key, pos)
  {
  }

  class Sorted<V> {
    var items: seq<Item<V>>

    ghost predicate Valid()
      reads this
    {
      Ascending(items)
    }

    ghost function Abs(): map<Bytes, V>
      requires Valid()
      reads this
    {
      Dict(items)
    }

    constructor ()
      ensures Valid() && Abs() == map[]
    {
      items := [];
    }

    /** Drops every pair. */
    method Clear()
      modifies this
      ensures Valid() && Abs() == map[]
    {
      items := [];
    }

    /** Halves the range until it meets the key or has no room for it; `pos` is then the item, or the place for one. */
    method Search(key: Bytes) returns (found: bool, pos: nat)
      requires Valid()
      ensures found <==> key in Abs()
      ensures found ==> pos < |items| && items[pos].key == key
      ensures !found ==> PlaceOf(items, key, pos)
    {
      var startPos, endPos: nat := 0, |items|;
      while true
        invariant 0 <= startPos <= endPos <= |items|
        invariant forall i | 0 <= i < startPos :: Less(items[i].key, key)
        invariant 0 < startPos ==> startPos < endPos && Less(items[startPos].key, key)
        invariant forall i | endPos <= i < |items| :: Less(key, items[i].key)
        decreases endPos - startPos
      {
        var midPos := (startPos + endPos) / 2;
        var nResult := if midPos < |items| then Compare(items[midPos].key, key) else -1;
        if midPos < |items| {
          CompareTotal(items[midPos].key, key);
          CompareTotal(key, items[midPos].key);
        }
        if nResult == 0 {
          DictAt(items, midPos);
          return true, midPos;
        } else if nResult < 0 {
          if startPos == midPos {
            pos := if |items| <= midPos + 1 then |items| else midPos + 1;
            PlaceNotIn(items, key, pos);
            return false, pos;
          }
          BelowMiddle(items, key, midPos);
          startPos := midPos;
        } else {
          if endPos == midPos {
            PlaceNotIn(items, key, midPos);
            return false, midPos;
          }
          AboveMiddle(items, key, midPos);
          endPos := midPos;
        }
      }
    }

    /** The value of a key; an empty key is never found. */
    method Find(key: Bytes) returns (found: bool, pos: nat)
      requires Valid()
      ensures found <==> key in Abs()
      ensures found ==> pos < |items| && items[pos].key == key && items[pos].val == Abs()[key]
    {
      if key == [] {
        if key in Dict(items) {
          var i := DictHas(items, key);
          assert false;
        }
        return false, |items|;
      }
      found, pos := Search(key);
      if found {
        DictAt(items, pos);
      }
    }

    /** Puts a pair in, over the one with the same key; an empty key is refused. */
    method Insert(key: Bytes, val: V) returns (ok: bool)
      requires Valid()
      modifies this
      ensures Valid() && ok == (key != [])
      ensures Abs() == if ok then old(Abs())[key := val] else old(Abs())
    {
      if key == [] {
        return false;
      }
      var found, pos := Search(key);
      if found {
        ItemPlace(items, pos);
        ErasedAscending(items, pos);
        ErasedDict(items, pos);
        items := items[..pos] + items[pos + 1..];
        RemovedThenPut(old(Abs()), key, val);
      }
      InsertedAscending(items, Item(key, val), pos);
      InsertedDict(items, Item(key, val), pos);
      items := items[..pos] + [Item(key, val)] + items[pos..];
      return true;
    }

    /** Takes a key out, if it is there. */
    method Erase(key: Bytes) returns (found: bool)
      requires Valid()
      modifies this
      ensures Valid() && found == (key in old(Abs())) && Abs() == old(Abs()) - {key}
    {
      var pos;
      found, pos := Find(key);
      if found {
        ErasedAscending(items, pos);
        ErasedDict(items, pos);
        items := items[..pos] + items[pos + 1..];
      } else {
        assert Abs() - {key} == Abs();
      }
    }
  }

  lemma BelowMiddle<V>(items: seq<Item<V>>, key: Bytes, mid: nat)
    requires Ascending(items) && mid < |items| && Less(items[mid].key, key)
    ensures forall i | 0 <= i <= mid :: Less(items[i].key, key)
  {
    forall i | 0 <= i < mid
      ensures Less(items[i].key, key)
    {
      LessTransitive(items[i].key, items[mid].key, key);
    }
  }

  lemma AboveMiddle<V>(items: seq<Item<V>>, key: Bytes, mid: nat)
    requires Ascending(items) && mid < |items| && Less(key, items[mid].key)
    ensures forall i | mid <= i < |items| :: Less(key, items[i].key)
  {
    forall i | mid < i < |items|
      ensures Less(key, items[i].key)
    {
      LessTransitive(key, items[mid].key, items[i].key);
    }
  }
}
