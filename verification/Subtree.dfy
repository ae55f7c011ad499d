/**
 The keys below a key: those that subkey lists lead to, through keys that exist.
 */
module Subtree {
  import opened Layout
  import opened Records
  import opened SizeCodec
  import opened SortedArray
  import SubKeys

  ghost function Below(m: Content, k: Bytes): set<Bytes>
    requires k in m
  {
    SubKeys.Listed(m[k].subkeys)
  }

  /** Key i of a path is in the subkey list of the one before it. */
  ghost predicate Step(m: Content, path: seq<Bytes>, i: nat)
    requires 0 < i < |path|
  {
    path[i - 1] in m && path[i] in Below(m, path[i - 1])
  }

  /** Keys that exist, each in the subkey list of the one before it. */
  ghost predicate Path(m: Content, path: seq<Bytes>)
  {
    && path != []
    && (forall i | 0 <= i < |path| :: path[i] in m)
    && (forall i | 0 < i < |path| :: Step(m, path, i))
  }

  ghost predicate PathFrom(m: Content, roots: set<Bytes>, path: seq<Bytes>, k: Bytes)
  {
    Path(m, path) && path[0] in roots && path[|path| - 1] == k
  }

  /** A path from one of the roots leads to k. */
  ghost predicate Reached(m: Content, roots: set<Bytes>, k: Bytes)
  {
    exists path :: PathFrom(m, roots, path, k)
  }

  /** What is left when the roots and everything below them are gone. */
  ghost function Pruned(m: Content, roots: set<Bytes>): Content
  {
    map k | k in m && !Reached(m, roots, k) :: m[k]
  }

  /** Without the keys of `gone` a path that meets none of them is still a path. */
  lemma PathKept(m: Content, m': Content, path: seq<Bytes>)
    requires Path(m, path) && forall i | 0 <= i < |path| :: path[i] in m' && m'[path[i]] == m[path[i]]
    ensures Path(m', path)
  {
    forall i | 0 < i < |path|
      ensures Step(m', path, i)
    {
      assert Step(m, path, i);
      assert m'[path[i - 1]] == m[path[i - 1]];
    }
  }

  lemma PathSuffix(m: Content, path: seq<Bytes>, i: nat)
    requires Path(m, path) && i < |path|
    ensures Path(m, path[i..]) && path[i..][0] == path[i] && path[i..][|path| - i - 1] == path[|path| - 1]
  {
    var s := path[i..];
    forall j | 0 < j < |s|
      ensures Step(m, s, j)
    {
      assert Step(m, path, i + j);
      assert s[j] == path[i + j] && s[j - 1] == path[i + j - 1];
    }
  }

  /** From k, or from below k, everything but k is reached without passing k again. */
  lemma {:induction false} PathAround(m: Content, k: Bytes, path: seq<Bytes>)
    requires k in m && Path(m, path) && (path[0] == k || path[0] in Below(m, k))
    ensures path[|path| - 1] == k || Reached(m - {k}, Below(m, k), path[|path| - 1])
    decreases |path|
  {
    if path[0] == k {
      if |path| > 1 {
        assert Step(m, path, 1);
        PathSuffix(m, path, 1);
        PathAround(m, k, path[1..]);
      }
    } else if k in path {
      var i :| 0 < i < |path| && path[i] == k;
      PathSuffix(m, path, i);
      PathAround(m, k, path[i..]);
    } else {
      PathKept(m, m - {k}, path);
      assert PathFrom(m - {k}, Below(m, k), path, path[|path| - 1]);
    }
  }

  lemma PathPut(m: Content, k: Bytes, path: seq<Bytes>)
    requires k in m && Path(m - {k}, path) && path[0] in Below(m, k)
    ensures PathFrom(m, {k}, [k] + path, path[|path| - 1])
  {
    PathKept(m - {k}, m, path);
    var p := [k] + path;
    forall i | 0 < i < |p|
      ensures Step(m, p, i)
    {
      assert i > 1 ==> Step(m, path, i - 1);
      assert p[i] == path[i - 1] && (i > 1 ==> p[i - 1] == path[i - 2]);
    }
  }

  /** Nothing is reached from a key that does not exist. */
  lemma PrunedAbsent(m: Content, k: Bytes)
    requires k !in m
    ensures Pruned(m, {k}) == m
  {
  }

  lemma PrunedNone(m: Content)
    ensures Pruned(m, {}) == m
  {
  }

  /** Removing a key first and then everything below it, in what is left, removes everything that is reached from it. */
  lemma PrunedStep(m: Content, k: Bytes)
    requires k in m
    ensures Pruned(m, {k}) == Pruned(m - {k}, Below(m, k))
  {
    forall x | x in m
      ensures Reached(m, {k}, x) <==> x == k || Reached(m - {k}, Below(m, k), x)
    {
      if Reached(m, {k}, x) {
        var path :| PathFrom(m, {k}, path, x);
        PathAround(m, k, path);
      }
      if x == k {
        assert PathFrom(m, {k}, [k], k);
      } else if Reached(m - {k}, Below(m, k), x) {
        var path :| PathFrom(m - {k}, Below(m, k), path, x);
        PathPut(m, k, path);
      }
    }
  }

  /**
   Pruning in two steps: what the second roots reach, but only through keys the first left, is reached from the first.
   */
  lemma PrunedTwice(m: Content, r1: set<Bytes>, r2: set<Bytes>)
    ensures Pruned(Pruned(m, r1), r2) == Pruned(m, r1 + r2)
  {
    var m1 := Pruned(m, r1);
    forall x | x in m
      ensures Reached(m, r1 + r2, x) <==> Reached(m, r1, x) || Reached(m1, r2, x)
    {
      if Reached(m, r1 + r2, x) {
        var path :| PathFrom(m, r1 + r2, path, x);
        if path[0] in r1 {
          assert PathFrom(m, r1, path, x);
        } else {
          PathSplit(m, r1, path);
          if !Reached(m, r1, x) {
            assert PathFrom(m1, r2, path, x);
          }
        }
      }
      if Reached(m, r1, x) {
        var path :| PathFrom(m, r1, path, x);
        assert PathFrom(m, r1 + r2, path, x);
      } else if Reached(m1, r2, x) {
        var path :| PathFrom(m1, r2, path, x);
        PathKept(m1, m, path);
        assert PathFrom(m, r1 + r2, path, x);
      }
    }
  }

  /** A path leads into what the roots reach, or stays in what is left without it. */
  lemma PathSplit(m: Content, roots: set<Bytes>, path: seq<Bytes>)
    requires Path(m, path)
    ensures Reached(m, roots, path[|path| - 1]) || Path(Pruned(m, roots), path)
  {
    if i :| 0 <= i < |path| && Reached(m, roots, path[i]) {
      var before :| PathFrom(m, roots, before, path[i]);
      PathSuffix(m, path, i);
      PathJoin(m, before, path[i..]);
      assert PathFrom(m, roots, before + path[i..][1..], path[|path| - 1]);
    } else {
      PathKept(m, Pruned(m, roots), path);
    }
  }

  lemma PathJoin(m: Content, p: seq<Bytes>, q: seq<Bytes>)
    requires Path(m, p) && Path(m, q) && p[|p| - 1] == q[0]
    ensures Path(m, p + q[1..]) && (p + q[1..])[0] == p[0] && (p + q[1..])[|p| + |q| - 2] == q[|q| - 1]
  {
    var r := p + q[1..];
    forall i | 0 < i < |r|
      ensures Step(m, r, i)
    {
      if i < |p| {
        assert Step(m, p, i);
        assert r[i] == p[i] && r[i - 1] == p[i - 1];
      } else {
        assert Step(m, q, i - |p| + 1);
        assert r[i] == q[i - |p| + 1] && r[i - 1] == q[i - |p|];
      }
    }
    forall i | 0 <= i < |r|
      ensures r[i] in m
    {
      assert r[i] == if i < |p| then p[i] else q[i - |p| + 1];
    }
  }

  // ---------------------------------------------------------------- what is removed, in terms of subkey lists

  /** With a key of the set every key that exists and is in its subkey list is in the set. */
  ghost predicate Closed(m: Content, s: set<Bytes>)
  {
    forall x, y | x in s && x in m && y in m && y in SubKeys.Listed(m[x].subkeys) :: y in s
  }

  /** A path that starts in a closed set stays in it. */
  lemma {:induction false} PathClosed(m: Content, s: set<Bytes>, path: seq<Bytes>, i: nat)
    requires Closed(m, s) && Path(m, path) && path[0] in s && i < |path|
    ensures path[i] in s
  {
    if i > 0 {
      PathClosed(m, s, path, i - 1);
      assert Step(m, path, i);
    }
  }

  /** What is reached goes on to everything that is listed there. */
  lemma ReachedOn(m: Content, roots: set<Bytes>, x: Bytes, y: Bytes)
    requires Reached(m, roots, x) && x in m && y in m && y in SubKeys.Listed(m[x].subkeys)
    ensures Reached(m, roots, y)
  {
    var path :| PathFrom(m, roots, path, x);
    var p := path + [y];
    forall i | 0 < i < |p|
      ensures Step(m, p, i)
    {
      assert p[i - 1] == path[i - 1];
      assert i < |path| ==> Step(m, path, i) && p[i] == path[i];
    }
    assert PathFrom(m, roots, p, y);
  }

  /**
   Removing a key with everything below it takes away the least set that has the key and, with every key in it,
   those of its subkey list that exist; every other key stays with its entry.
   */
  lemma PrunedLeast(m: Content, k: Bytes)
    requires k in m
    ensures
      var gone := m.Keys - Pruned(m, {k}).Keys;
      && Pruned(m, {k}) == m - gone
      && k in gone && Closed(m, gone)
      && forall s | k in s && Closed(m, s) :: gone <= s
  {
    var gone := m.Keys - Pruned(m, {k}).Keys;
    assert PathFrom(m, {k}, [k], k);
    forall x, y | x in gone && x in m && y in m && y in SubKeys.Listed(m[x].subkeys)
      ensures y in gone
    {
      ReachedOn(m, {k}, x, y);
    }
    forall s, x | k in s && Closed(m, s) && x in gone
      ensures x in s
    {
      var path :| PathFrom(m, {k}, path, x);
      PathClosed(m, s, path, |path| - 1);
    }
  }

  /** The subkeys in a list that was written go with the key, and what they list in turn goes, too. */
  lemma ListedGone(m: Content, k: Bytes, keys: SubKeys.Keys, x: Bytes, below: SubKeys.Keys)
    requires k in m && Ascending(keys) && m[k].subkeys == SubKeys.Serialized(keys)
    requires |SubKeys.Serialized(keys)| < Limit(SIZE_T) && x in Dict(keys).Keys && x in m
    requires Ascending(below) && m[x].subkeys == SubKeys.Serialized(below)
    requires |SubKeys.Serialized(below)| < Limit(SIZE_T)
    ensures x !in Pruned(m, {k}) && forall y | y in Dict(below).Keys :: y !in Pruned(m, {k})
  {
    PrunedLeast(m, k);
    SubKeys.SerializedListed(keys);
    SubKeys.SerializedListed(below);
  }

  /** Without subkeys nothing but the key itself goes. */
  lemma NothingListed(m: Content, k: Bytes)
    requires k in m && m[k].subkeys == []
    ensures Pruned(m, {k}) == m - {k}
  {
    PrunedLeast(m, k);
    assert Closed(m, {k});
  }

  /** Which keys go depends on the subkey lists alone. */
  lemma ListsDecide(m: Content, m': Content, k: Bytes)
    requires k in m && m.Keys == m'.Keys && forall x | x in m :: m[x].subkeys == m'[x].subkeys
    ensures Pruned(m, {k}).Keys == Pruned(m', {k}).Keys
  {
    PrunedLeast(m, k);
    PrunedLeast(m', k);
    var gone, gone' := m.Keys - Pruned(m, {k}).Keys, m'.Keys - Pruned(m', {k}).Keys;
    assert Closed(m', gone) && Closed(m, gone');
    assert gone == gone';
    assert Pruned(m, {k}).Keys == m.Keys - gone && Pruned(m', {k}).Keys == m'.Keys - gone';
  }

  /** Pruning never leaves more than there was. */
  lemma PrunedWithin(m: Content, roots: set<Bytes>)
    ensures Pruned(m, roots).Keys <= m.Keys
  {
  }
}
