/**
 The areas of the file (K2HShm::ExpandArea, SetAreasArray): the header's array fills from the
 front, and its areas follow each other in the file, aligned and without overlap, below unassign_area.
 */
module AreaLayout {
  import opened Layout

  datatype AreaType = UNKNOWN | K2H | KINDEX | CKINDEX | PAGELIST | PAGE

  /** One entry of the header's areas array. */
  datatype Area = Area(areaType: AreaType, fileOffset: nat, length: nat)

  const MAX_K2HAREA_COUNT := 2048

  /** The first n entries are in use, ascending, aligned and disjoint, and end below `unassign`. */
  ghost predicate Laid(table: seq<Area>, n: nat, pageSize: nat, unassign: nat)
    requires pageSize > 0
  {
    && n <= |table|
    && (forall i | 0 <= i < |table| :: table[i].areaType.UNKNOWN? <==> n <= i)
    && (forall i | 0 <= i < n :: table[i].fileOffset % pageSize == 0 && 0 < table[i].fileOffset)
    && (forall i | 0 <= i < n :: table[i].fileOffset + table[i].length <= unassign)
    && (forall i, j | 0 <= i < j < n :: table[i].fileOffset + table[i].length <= table[j].fileOffset)
  }

  /** No area of the list reaches over the offset. */
  ghost predicate EndBy(used: seq<Area>, offset: nat)
  {
    forall i | 0 <= i < |used| :: used[i].fileOffset + used[i].length <= offset
  }

  /** Areas are added behind the others, and none of them is for pages. */
  ghost predicate NoPagesAdded(used: seq<Area>, used': seq<Area>)
  {
    used <= used' && forall i | |used| <= i < |used'| :: used'[i].areaType != PAGE
  }

  /** Two different areas share no offset. */
  lemma AreasDisjoint(table: seq<Area>, n: nat, pageSize: nat, unassign: nat, i: nat, j: nat, off: nat)
    requires pageSize > 0 && Laid(table, n, pageSize, unassign) && i < n && j < n
    requires table[i].fileOffset <= off < table[i].fileOffset + table[i].length
    requires table[j].fileOffset <= off < table[j].fileOffset + table[j].length
    ensures i == j
  {
  }

  /** The smallest multiple of pageSize that is not below length. */
  function Aligned(length: nat, pageSize: nat): (r: nat)
    requires pageSize > 0
    ensures r % pageSize == 0 && length <= r < length + pageSize
  {
    var q := length / pageSize + if length % pageSize == 0 then 0 else 1;
    assert length == pageSize * (length / pageSize) + length % pageSize;
    assert q * pageSize == pageSize * (length / pageSize) + if length % pageSize == 0 then 0 else pageSize;
    AlignedMultiple(q, pageSize);
    q * pageSize
  }

  lemma AlignedMultiple(q: nat, pageSize: nat)
    requires pageSize > 0
    ensures (q * pageSize) % pageSize == 0
  {
    var x := q * pageSize;
    var d := q - x / pageSize;
    assert x == pageSize * (x / pageSize) + x % pageSize;
    assert pageSize * d == x % pageSize;
    assert d >= 1 ==> pageSize * d >= pageSize;
    assert d <= -1 ==> pageSize * d <= -1 * pageSize;
  }

  class Areas {
    const systemPageSize: nat
    const table: array<Area>
    var unassignArea: nat
    ghost var count: nat
    ghost var used: seq<Area>

    ghost predicate Valid()
      reads this, table
    {
      && table.Length == MAX_K2HAREA_COUNT && systemPageSize > 0 && 0 < unassignArea
      && |used| == count <= MAX_K2HAREA_COUNT
      && forall u: nat {:trigger Look(AREAS, u)} :: Look(AREAS, u) ==>
        Laid(table[..], count, systemPageSize, unassignArea) && used == table[..][..count]
    }

    /** Everything the header says about the areas. */
    ghost function View(): (nat, seq<Area>, seq<Area>)
      reads this, table
    {
      (unassignArea, used, table[..])
    }

    /** The areas in use follow each other, and their number is what the header counts. */
    lemma UsedAre()
      requires Valid()
      ensures |used| == count && EndBy(used, unassignArea)
      ensures forall i | 0 <= i < count :: used[i] == table[i] && 0 < used[i].fileOffset
      ensures forall i | 0 <= i < count :: EndBy(used[..i], used[i].fileOffset)
    {
      assert Look(AREAS, 0);
      assert forall i | 0 <= i < |table[..]| :: table[..][i] == table[i];
    }

    /** An areas array whose entries are unused, with everything below `total` taken. */
    constructor (systemPageSize: nat, total: nat)
      requires systemPageSize > 0 && 0 < total
      ensures Valid() && fresh(table) && count == 0 && used == [] && unassignArea == total
      ensures this.systemPageSize == systemPageSize
    {
      this.systemPageSize := systemPageSize;
      table := new Area[MAX_K2HAREA_COUNT](i => Area(UNKNOWN, 0, 0));
      unassignArea := total;
      count, used := 0, [];
    }

    /** Enters an area in the first unused entry; fails when every entry is used. */
    method SetAreasArray(areaType: AreaType, fileOffset: nat, length: nat) returns (ok: bool)
      requires Valid() && !areaType.UNKNOWN?
      requires fileOffset % systemPageSize == 0 && 0 < fileOffset && fileOffset + length <= unassignArea
      requires forall i | 0 <= i < count :: table[i].fileOffset + table[i].length <= fileOffset
      modifies table, this`count, this`used
      ensures Valid()
      ensures ok <==> old(count) < MAX_K2HAREA_COUNT
      ensures count == if ok then old(count) + 1 else old(count)
      ensures used == if ok then old(used) + [Area(areaType, fileOffset, length)] else old(used)
      ensures table[..] ==
        if ok then old(table[..])[old(count) := Area(areaType, fileOffset, length)] else old(table[..])
    {
      assert Look(AREAS, 0);
      var n := 0;
      while n < MAX_K2HAREA_COUNT && !table[n].areaType.UNKNOWN?
        invariant 0 <= n <= MAX_K2HAREA_COUNT
        invariant forall i | 0 <= i < n :: !table[i].areaType.UNKNOWN?
      {
        n := n + 1;
      }
      assert n < MAX_K2HAREA_COUNT ==> table[..][n] == table[n];
      assert count < MAX_K2HAREA_COUNT ==> table[..][count] == table[count];
      assert n == count;
      if n >= MAX_K2HAREA_COUNT {
        return false;
      }
      table[n] := Area(areaType, fileOffset, length);
      count, used := count + 1, used + [Area(areaType, fileOffset, length)];
      assert table[..] == old(table[..])[old(count) := Area(areaType, fileOffset, length)];
      ok := true;
    }

    /**
     Adds an area behind everything that is in use.  unassign_area moves even when the array has
     no entry left.
     */
    method ExpandArea(areaType: AreaType, length: nat) returns (ok: bool, start: nat)
      requires Valid() && !areaType.UNKNOWN?
      modifies this, table
      ensures Valid()
      ensures ok <==> old(count) < MAX_K2HAREA_COUNT
      ensures start % systemPageSize == 0 && old(unassignArea) <= start < old(unassignArea) + systemPageSize
      ensures unassignArea == start + length && 0 < start && EndBy(old(used), start)
      ensures count == if ok then old(count) + 1 else old(count)
      ensures used == if ok then old(used) + [Area(areaType, start, length)] else old(used)
      ensures table[..] == if ok then old(table[..])[old(count) := Area(areaType, start, length)] else old(table[..])
    {
      assert Look(AREAS, 0);
      UsedAre();
      start := Aligned(unassignArea, systemPageSize);
      unassignArea := start + length;
      assert forall i | 0 <= i < |table[..]| :: table[..][i] == table[i];
      ok := SetAreasArray(areaType, start, length);
    }

    /** The last area in use; an area of ELEMENTs or pages only when it is not the first one of its type. */
    method GetLastestArea() returns (found: bool, n: nat)
      requires Valid()
      ensures found ==> count > 0 && n == count - 1
      ensures found && (table[n].areaType == PAGELIST || table[n].areaType == PAGE) ==>
        exists i | 0 <= i < n :: table[i].areaType == table[n].areaType
      ensures !found ==>
        count == 0 || ((table[count - 1].areaType == PAGELIST || table[count - 1].areaType == PAGE)
                       && forall i | 0 <= i < count - 1 :: table[i].areaType != table[count - 1].areaType)
    {
      assert Look(AREAS, 0);
      assert forall i | 0 <= i < |table[..]| :: table[..][i] == table[i];
      found, n := false, 0;
      var nCnt := MAX_K2HAREA_COUNT;
      while 0 < nCnt && table[nCnt - 1].areaType.UNKNOWN?
        invariant 0 <= nCnt <= MAX_K2HAREA_COUNT && count <= nCnt
      {
        nCnt := nCnt - 1;
      }
      if nCnt == 0 {
        return;
      }
      n := nCnt - 1;
      if table[n].areaType != PAGELIST && table[n].areaType != PAGE {
        return true, n;
      }
      var nCnt2 := n;
      while 0 < nCnt2
        invariant 0 <= nCnt2 <= n
        invariant forall i | nCnt2 <= i < n :: table[i].areaType != table[n].areaType
      {
        if table[n].areaType == table[nCnt2 - 1].areaType {
          return true, n;
        }
        nCnt2 := nCnt2 - 1;
      }
    }

    /** Gives the last area up: the file ends where it began. */
    method RemoveLast(n: nat)
      requires Valid() && count > 0 && n == count - 1
      modifies this, table
      ensures Valid() && count == old(count) - 1 && unassignArea == old(table[n]).fileOffset
      ensures used == old(used)[..n] && old(used)[n] == old(table[n])
      ensures table[..] == old(table[..])[n := Area(UNKNOWN, 0, 0)]
    {
      assert Look(AREAS, 0);
      assert forall i | 0 <= i < |table[..]| :: table[..][i] == table[i];
      unassignArea := table[n].fileOffset;
      table[n] := Area(UNKNOWN, 0, 0);
      count, used := count - 1, used[..n];
      assert table[..] == old(table[..])[n := Area(UNKNOWN, 0, 0)];
    }
  }
}
