/**
 Ranges on the circle of hashes (the window test of K2HShm::GetElementListToBinary), computed in 64 bits: what
 the test accepts, and exactly when it is the range that was asked for.
 */
module HashRange {
  import opened Layout

  const HASH_LIMIT := 0x1_0000_0000_0000_0000

  /** The last hash of a range, wrapped round the circle. */
  function EndHash(start: nat, max: nat, range: int): (r: nat)
    requires 0 < max
    ensures r < max
  {
    ((start + if 0 < range then range - 1 else 0) % HASH_LIMIT) % max
  }

  /**
   The hash is between the first and the last of the range, or not between the last and the first when the range
   wraps.
   */
  predicate InWindow(hash: nat, start: nat, end: nat, max: nat)
    requires 0 < max
  {
    if start <= end then start <= hash % max <= end
    else !(end < hash % max < start)
  }

  /** How far a point of the circle lies behind another. */
  function Behind(point: nat, start: nat, max: nat): (r: nat)
    requires point < max && start < max
    ensures r < max
  {
    if start <= point then point - start else point + max - start
  }

  lemma QuotientAndRest(x: int, max: nat)
    requires 0 < max
    ensures x == (x / max) * max + x % max
  {
  }

  /** Numbers with the same rest differ by a multiple, and the other way round. */
  lemma SameRest(x: int, y: int, max: nat)
    requires 0 < max
    ensures (x - y) % max == 0 <==> x % max == y % max
  {
    QuotientAndRest(x, max);
    QuotientAndRest(y, max);
    if x % max == y % max {
      assert x - y == (x / max - y / max) * max + 0;
      RestIs(x - y, max, x / max - y / max, 0);
    } else if x % max > y % max {
      assert x - y == (x / max - y / max) * max + (x % max - y % max);
      RestIs(x - y, max, x / max - y / max, x % max - y % max);
    } else {
      assert x - y == (x / max - y / max - 1) * max + (max + x % max - y % max);
      RestIs(x - y, max, x / max - y / max - 1, max + x % max - y % max);
    }
  }

  lemma BehindIsMod(point: nat, start: nat, max: nat)
    requires point < max && start < max
    ensures Behind(point, start, max) == (point - start) % max
  {
    if start <= point {
      RestIs(point - start, max, 0, point - start);
    } else {
      RestIs(point - start, max, -1, point + max - start);
    }
  }

  /** The test accepts what lies no further behind the start than the end does. */
  lemma WindowIsArc(hash: nat, start: nat, end: nat, max: nat)
    requires start < max && end < max
    ensures InWindow(hash, start, end, max) <==> Behind(hash % max, start, max) <= Behind(end, start, max)
  {
  }

  /**
   How far the computed end lies behind the start: range - 1, less the 2^64 that the sum may have lost, on the circle.
   */
  lemma ArcLength(start: nat, max: nat, range: nat, lost: nat)
    requires
      && start < max < HASH_LIMIT && 1 <= range < HASH_LIMIT
      && lost == if start + range <= HASH_LIMIT then 0 else HASH_LIMIT
    ensures Behind(EndHash(start, max, range), start, max) == (range - 1 - lost) % max
  {
    var last := start + range - 1;
    RestIs(last, HASH_LIMIT, if lost == 0 then 0 else 1, last - lost);
    var end := EndHash(start, max, range);
    BehindIsMod(end, start, max);
    SameRest(end, last - lost, max);
    QuotientAndRest(last - lost, max);
    RestIs(end, max, 0, end);
    SameRest(end - start, last - lost - start, max);
    assert (end - start) - (last - lost - start) == end - (last - lost);
    assert last - lost - start == range - 1 - lost;
  }

  /** The test tells for every hash whether it lies less than `range` behind the start. */
  ghost predicate Right(start: nat, max: nat, range: nat)
    requires start < max
  {
    forall hash: nat ::
      InWindow(hash, start, EndHash(start, max, range), max) <==> Behind(hash % max, start, max) < range
  }

  /** Without overflow the test accepts (range - 1) % max + 1 of the max hashes, from the start on. */
  lemma WindowIsRange(hash: nat, start: nat, max: nat, range: nat)
    requires start < max < HASH_LIMIT && 1 <= range < HASH_LIMIT && start + range <= HASH_LIMIT
    ensures InWindow(hash, start, EndHash(start, max, range), max) <==>
      Behind(hash % max, start, max) < (range - 1) % max + 1
  {
    WindowIsArc(hash, start, EndHash(start, max, range), max);
    ArcLength(start, max, range, 0);
  }

  /** The point of the circle that lies k behind the start. */
  lemma PointAt(start: nat, max: nat, k: nat) returns (point: nat)
    requires start < max && k < max
    ensures point < max && point % max == point && Behind(point, start, max) == k
  {
    point := if start + k < max then start + k else start + k - max;
    RestIs(point, max, 0, point);
  }

  /** Two arcs from the same start are the same exactly when they are equally long, or both the whole circle. */
  lemma RightByLength(start: nat, max: nat, range: nat)
    requires start < max < HASH_LIMIT && 1 <= range < HASH_LIMIT
    ensures
      var length := Behind(EndHash(start, max, range), start, max) + 1;
      Right(start, max, range) <==> length == if range <= max then range else max
  {
    var end := EndHash(start, max, range);
    var length := Behind(end, start, max) + 1;
    forall hash: nat
      ensures InWindow(hash, start, end, max) <==> Behind(hash % max, start, max) < length
    {
      WindowIsArc(hash, start, end, max);
    }
    if length < range && length < max {
      var point := PointAt(start, max, length);
      assert !InWindow(point, start, end, max) && Behind(point % max, start, max) < range;
    } else if range < length {
      var point := PointAt(start, max, range);
      assert InWindow(point, start, end, max) && !(Behind(point % max, start, max) < range);
    }
  }

  /**
   When the test is right for every hash: without overflow, for ranges of at most the whole circle and for
   whole circles; when start + range - 1 overflows, only if the 2^64 lost is 0 on the circle, or, for a wider range,
   is what the range is there.
   */
  lemma RightExactly(start: nat, max: nat, range: nat)
    requires start < max < HASH_LIMIT && 1 <= range < HASH_LIMIT
    ensures start + range <= HASH_LIMIT ==> (Right(start, max, range) <==> range <= max || range % max == 0)
    ensures start + range > HASH_LIMIT ==>
      (Right(start, max, range) <==> HASH_LIMIT % max == if range <= max then 0 else range % max)
  {
    var lost := if start + range <= HASH_LIMIT then 0 else HASH_LIMIT;
    ArcLength(start, max, range, lost);
    RightByLength(start, max, range);
    RestIs(0, max, 0, 0);
    if range <= max {
      RestIs(range - 1, max, 0, range - 1);
      SameRest(range - 1, lost, max);
      SameRest(range - 1 - lost, range - 1, max);
      SameRest(lost, 0, max);
      SameRest(0, lost, max);
      assert range - 1 - lost - (range - 1) == 0 - lost;
    } else {
      RestIs(max - 1, max, 0, max - 1);
      SameRest(range - 1 - lost, max - 1, max);
      SameRest(range - lost, max, max);
      RestIs(max, max, 1, 0);
      SameRest(range, lost, max);
      assert range - 1 - lost - (max - 1) == range - lost - max;
    }
  }

  /** The same for a start that is not on the circle: it stands for its rest, but the test does not take it so. */
  ghost predicate RightBeyond(start: nat, max: nat, range: nat)
    requires 0 < max
  {
    forall hash: nat ::
      InWindow(hash, start, EndHash(start, max, range), max) <==> Behind(hash % max, start % max, max) < range
  }

  lemma RightBeyondExactly(start: nat, max: nat, range: nat, lost: nat)
    requires
      && 0 < max <= start < HASH_LIMIT && 1 <= range < HASH_LIMIT
      && lost == if start + range <= HASH_LIMIT then 0 else HASH_LIMIT
    ensures RightBeyond(start, max, range) <==>
      if range < max then start % max == 0 && lost % max == 0 else (start + range) % max == lost % max
  {
    var end, s := EndHash(start, max, range), start % max;
    EndBeyond(start, max, range, lost);
    BeyondPoint(start, max, range, s);
    BeyondPoint(start, max, range, if s > 0 then s - 1 else s);
    BeyondPoint(start, max, range, if range <= max then range - 1 else s);
    BeyondPoint(start, max, range, if range < max then range else s);
    BeyondPoint(start, max, range, max - 1);
    if RightBeyond(start, max, range) && range < max && s > 0 {
      assert false;
    }
  }

  lemma BeyondPoint(start: nat, max: nat, range: nat, point: nat)
    requires point < max <= start
    ensures
      && point % max == point
      && (InWindow(point, start, EndHash(start, max, range), max) <==> point <= EndHash(start, max, range))
  {
    RestIs(point, max, 0, point);
  }

  lemma EndBeyond(start: nat, max: nat, range: nat, lost: nat)
    requires
      && 0 < max <= start < HASH_LIMIT && 1 <= range < HASH_LIMIT
      && lost == if start + range <= HASH_LIMIT then 0 else HASH_LIMIT
    ensures EndHash(start, max, range) == max - 1 <==> (start + range) % max == lost % max
    ensures start % max == 0 && range <= max ==> (EndHash(start, max, range) == range - 1 <==> lost % max == 0)
  {
    var last, end := start + range - 1, EndHash(start, max, range);
    RestIs(last, HASH_LIMIT, if lost == 0 then 0 else 1, last - lost);
    RestIs(max - 1, max, 0, max - 1);
    RestIs(0, max, 0, 0);
    SameRest(last - lost, max - 1, max);
    SameRest(start + range - lost, max, max);
    RestIs(max, max, 1, 0);
    SameRest(start + range, lost, max);
    assert last - lost - (max - 1) == start + range - lost - max;
    if range <= max {
      RestIs(range - 1, max, 0, range - 1);
      SameRest(last - lost, range - 1, max);
      assert last - lost - (range - 1) == start - lost;
      SameRest(start, lost, max);
    }
  }

  /** A range one wider than the circle is taken for a single hash. */
  lemma TooWideRange()
    ensures !InWindow(1, 0, EndHash(0, 4, 5), 4) && Behind(1, 0, 4) < 5
  {
  }

  /** A narrow range whose last hash overflows misses hashes of its own. */
  lemma OverflowingRange()
    ensures
      var max := HASH_LIMIT - 1;
      !InWindow(1, max - 1, EndHash(max - 1, max, 3), max) && Behind(1, max - 1, max) < 3
  {
  }
}
