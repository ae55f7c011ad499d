/**
 The list of mapped areas (K2HMMAPINFO): a linked list in the order of file offsets, insertion and
 removal in place, translation between file offsets and addresses, and the walk over the slots of
 all areas of one type.
 */
module MmapList {
  import opened Layout
  import opened AreaLayout

  /** One mapped area. */
  datatype Region = Region(areaType: AreaType, fileOffset: nat, mmapBase: nat, length: nat)

  predicate HasOffset(r: Region, off: int)
  {
    r.fileOffset <= off < r.fileOffset + r.length
  }

  predicate HasAddress(r: Region, address: int)
  {
    r.mmapBase <= address < r.mmapBase + r.length
  }

  /** No address and no file offset in common. */
  predicate Separate(r1: Region, r2: Region)
  {
    && (r1.fileOffset + r1.length <= r2.fileOffset || r2.fileOffset + r2.length <= r1.fileOffset)
    && (r1.mmapBase + r1.length <= r2.mmapBase || r2.mmapBase + r2.length <= r1.mmapBase)
  }

  /** Areas by ascending file offset that share nothing; none is empty and none lies at the null address. */
  ghost predicate Sorted(regions: seq<Region>)
  {
    forall u: nat {:trigger Look(SORTED, u)} :: Look(SORTED, u) ==>
      && (forall i | 0 <= i < |regions| :: 0 < regions[i].length && 0 < regions[i].mmapBase)
      && (forall i, j | 0 <= i < j < |regions| ::
            regions[i].fileOffset < regions[j].fileOffset && Separate(regions[i], regions[j]))
  }

  class MmapInfo {
    var next: MmapInfo?
    const region: Region

    constructor (region: Region)
      ensures this.region == region && next == null
    {
      this.region := region;
      next := null;
    }
  }

  class MmapInfos {
    var top: MmapInfo?

    /** The nodes of the list, and what they describe. */
    ghost var infos: seq<MmapInfo>
    ghost var regions: seq<Region>

    /** The node at place i, null behind the last. */
    ghost function At(i: nat): MmapInfo?
      reads this
    {
      if i < |infos| then infos[i] else null
    }

    ghost predicate Linked()
      reads this, infos
    {
      && top == At(0) && |regions| == |infos|
      && (forall i | 0 <= i < |infos| :: infos[i].region == regions[i] && infos[i].next == At(i + 1))
      && (forall i, j | 0 <= i < j < |infos| :: infos[i] != infos[j])
    }

    ghost predicate Valid()
      reads this, infos
    {
      var valid := Linked() && Sorted(regions);
      valid
    }

    constructor ()
      ensures Valid() && regions == [] && infos == []
    {
      top, infos, regions := null, [], [];
    }

    /** The first node with a greater file offset, and the node before it. */
    method FindPlace(off: nat) returns (parent: MmapInfo?, base: MmapInfo?, ghost k: nat)
      requires Linked()
      ensures k <= |infos| && base == At(k) && parent == (if k == 0 then null else infos[k - 1])
      ensures forall i | 0 <= i < k :: regions[i].fileOffset <= off
      ensures k < |regions| ==> off < regions[k].fileOffset
    {
      parent, base, k := null, top, 0;
      while base != null && base.region.fileOffset <= off
        invariant 0 <= k <= |infos| && base == At(k) && parent == if k == 0 then null else infos[k - 1]
        invariant forall i | 0 <= i < k :: regions[i].fileOffset <= off
        decreases |infos| - k
      {
        parent, base := base, base.next;
        k := k + 1;
      }
    }

    /** Links a new node in before the first one with a greater file offset. */
    method Add(info: MmapInfo) returns (ghost k: nat)
      requires Valid() && info !in infos
      requires 0 < info.region.length && 0 < info.region.mmapBase
      requires forall i | 0 <= i < |regions| :: Separate(regions[i], info.region)
      modifies this, infos, info
      ensures Valid() && k <= |old(regions)| == |old(infos)|
      ensures regions == old(regions)[..k] + [info.region] + old(regions)[k..]
      ensures infos == old(infos)[..k] + [info] + old(infos)[k..]
    {
      var parent, base;
      parent, base, k := FindPlace(info.region.fileOffset);
      InsertedSorted(regions, info.region, k);
      LinkIn(info, parent, base, k);
    }

    /** The link writes of Add. */
    method LinkIn(info: MmapInfo, parent: MmapInfo?, base: MmapInfo?, ghost k: nat)
      requires
        && Linked() && info !in infos && k <= |infos| && base == At(k)
        && parent == (if k == 0 then null else infos[k - 1])
      modifies this, infos, info
      ensures Linked() && |old(regions)| == |old(infos)|
      ensures regions == old(regions)[..k] + [info.region] + old(regions)[k..]
      ensures infos == old(infos)[..k] + [info] + old(infos)[k..]
    {
      SetLinks(info, parent, base, k);
      NoteIn(info, k);
    }

    /** Notes the node that was linked in at place k. */
    ghost method NoteIn(info: MmapInfo, k: nat)
      requires |regions| == |infos| && k <= |infos| && info !in infos
      requires
        && (forall i | 0 <= i < |infos| :: infos[i].region == regions[i])
        && (forall i, j | 0 <= i < j < |infos| :: infos[i] != infos[j])
      requires top == (if k == 0 then info else infos[0]) && info.next == At(k)
      requires forall j | 0 <= j < |infos| :: infos[j].next == if j + 1 == k then info else At(j + 1)
      modifies this`infos, this`regions
      ensures Linked() && infos == old(infos)[..k] + [info] + old(infos)[k..]
      ensures regions == old(regions)[..k] + [info.region] + old(regions)[k..]
    {
      ghost var list, nodes := regions, infos;
      infos := nodes[..k] + [info] + nodes[k..];
      regions := list[..k] + [info.region] + list[k..];
      Inserted(nodes, info, k);
      InsertedAt(list, info.region, k);
      InsertedAt(nodes, info, k);
      assert forall i | 0 <= i < |infos| :: infos[i].next == At(i + 1);
    }

    method SetLinks(info: MmapInfo, parent: MmapInfo?, base: MmapInfo?, ghost k: nat)
      requires
        && Linked() && info !in infos && k <= |infos| && base == At(k)
        && parent == (if k == 0 then null else infos[k - 1])
      modifies this`top, infos, info
      ensures top == if k == 0 then info else infos[0]
      ensures info.next == At(k)
      ensures forall j | 0 <= j < |infos| :: infos[j].next == if j + 1 == k then info else At(j + 1)
    {
      info.next := base;
      if parent != null {
        parent.next := info;
      } else {
        top := info;
      }
    }

    /** The node before one that is in the list, null before the first. */
    method FindParent(info: MmapInfo, ghost k: nat) returns (parent: MmapInfo?)
      requires Valid() && k < |infos| && infos[k] == info
      ensures parent == if k == 0 then null else infos[k - 1]
    {
      var base := top;
      parent := null;
      ghost var i := 0;
      while base != info
        invariant 0 <= i <= k && base == infos[i] && parent == if i == 0 then null else infos[i - 1]
        decreases k - i
      {
        parent, base := base, base.next;
        i := i + 1;
      }
    }

    /** Takes a node out of the list. */
    method Unmap(info: MmapInfo, ghost k: nat)
      requires Valid() && k < |infos| && infos[k] == info
      modifies this, infos
      ensures Valid() && k < |old(infos)| == |old(regions)| && infos == old(infos)[..k] + old(infos)[k + 1..]
      ensures regions == old(regions)[..k] + old(regions)[k + 1..]
    {
      var parent := FindParent(info, k);
      ErasedSorted(regions, k);
      LinkOut(info, parent, k);
    }

    /** The link writes of Unmap. */
    method LinkOut(info: MmapInfo, parent: MmapInfo?, ghost k: nat)
      requires Linked() && k < |infos| && infos[k] == info && parent == (if k == 0 then null else infos[k - 1])
      modifies this, infos
      ensures Linked() && k < |old(infos)| == |old(regions)| && infos == old(infos)[..k] + old(infos)[k + 1..]
      ensures regions == old(regions)[..k] + old(regions)[k + 1..]
    {
      ghost var list, nodes := regions, infos;
      if parent != null {
        parent.next := info.next;
      } else {
        top := info.next;
      }
      infos := nodes[..k] + nodes[k + 1..];
      regions := list[..k] + list[k + 1..];
      forall i | 0 <= i < |infos|
        ensures infos[i].region == regions[i] && infos[i].next == At(i + 1)
      {
        var j := if i < k then i else i + 1;
        assert infos[i] == nodes[j] && (i + 1 < |infos| ==> infos[i + 1] == nodes[if i + 1 < k then i + 1 else i + 2]);
      }
    }

    // ---------------------------------------------------------------- translation

    /** The node that maps a file offset, null when none does. */
    method FindOffset(off: int) returns (info: MmapInfo?, ghost k: nat)
      requires Valid()
      ensures k <= |infos| && info == At(k) && (info != null ==> HasOffset(info.region, off))
      ensures info == null ==> forall i | 0 <= i < |regions| :: !HasOffset(regions[i], off)
    {
      info, k := top, 0;
      while info != null && !HasOffset(info.region, off)
        invariant 0 <= k <= |infos| && info == At(k)
        invariant forall i | 0 <= i < k :: !HasOffset(regions[i], off)
        decreases |infos| - k
      {
        info := info.next;
        k := k + 1;
      }
    }

    method FindAddress(address: int) returns (info: MmapInfo?, ghost k: nat)
      requires Valid()
      ensures k <= |infos| && info == At(k) && (info != null ==> HasAddress(info.region, address))
      ensures info == null ==> forall i | 0 <= i < |regions| :: !HasAddress(regions[i], address)
    {
      info, k := top, 0;
      while info != null && !HasAddress(info.region, address)
        invariant 0 <= k <= |infos| && info == At(k)
        invariant forall i | 0 <= i < k :: !HasAddress(regions[i], address)
        decreases |infos| - k
      {
        info := info.next;
        k := k + 1;
      }
    }

    /** What is to be added to a file offset to get its address; -1 when it is not mapped. */
    method GetMmapAddrOffset(off: int) returns (r: int)
      requires Valid()
      ensures forall i | 0 <= i < |regions| && HasOffset(regions[i], off) ::
        r == regions[i].mmapBase - regions[i].fileOffset
      ensures (forall i | 0 <= i < |regions| :: !HasOffset(regions[i], off)) ==> r == -1
    {
      var info;
      ghost var k;
      info, k := FindOffset(off);
      OneHasOffset(regions, off);
      r := if info != null then info.region.mmapBase - info.region.fileOffset else -1;
    }

    /** What is to be added to an address to get its file offset; 0 when it is not mapped. */
    method GetMmapAddressToFileOffset(address: int) returns (r: int)
      requires Valid()
      ensures forall i | 0 <= i < |regions| && HasAddress(regions[i], address) ::
        r == regions[i].fileOffset - regions[i].mmapBase
      ensures (forall i | 0 <= i < |regions| :: !HasAddress(regions[i], address)) ==> r == 0
    {
      var info;
      ghost var k;
      info, k := FindAddress(address);
      OneHasAddress(regions, address);
      r := if info != null then info.region.fileOffset - info.region.mmapBase else 0;
    }

    /** The address of a file offset, null when it is not mapped, and for offset 0 unless that is allowed. */
    method CvtAbs(off: int, isAllowNull: bool) returns (address: int)
      requires Valid()
      ensures address == AbsOf(regions, off, isAllowNull)
    {
      if !isAllowNull && off == 0 {
        return 0;
      }
      var mmapOffset := GetMmapAddrOffset(off);
      AbsIs(regions, off);
      address := if mmapOffset == -1 then 0 else mmapOffset + off;
    }

    /** The file offset of an address; an address that is not mapped is given back. */
    method CvtRel(address: int, isAllowNull: bool) returns (off: int)
      requires Valid()
      ensures off == RelOf(regions, address, isAllowNull)
    {
      if !isAllowNull && address == 0 {
        return 0;
      }
      var fileOffset := GetMmapAddressToFileOffset(address);
      RelIs(regions, address);
      off := fileOffset + address;
    }

    // ---------------------------------------------------------------- walking over slots

    /** The first address of the first area of a type. */
    method Begin(areaType: AreaType) returns (address: int)
      requires Valid()
      ensures address == FirstBase(regions, areaType, 0)
    {
      var info := top;
      ghost var k := 0;
      while info != null && info.region.areaType != areaType
        invariant 0 <= k <= |infos| && info == At(k)
        invariant FirstBase(regions, areaType, k) == FirstBase(regions, areaType, 0)
        decreases |infos| - k
      {
        info := info.next;
        k := k + 1;
      }
      address := if info != null then info.region.mmapBase else 0;
    }

    /** The address `size` behind one, or the start of the next area of the same type, or null. */
    method Next(address: int, size: nat) returns (next: int)
      requires Valid() && 0 < size && Plain(regions)
      ensures Follows(regions, address, size, next)
    {
      var off := CvtRel(address, false);
      var info;
      ghost var k;
      info, k := FindOffset(off);
      if info == null {
        next := 0;
      } else if off + size < info.region.fileOffset + info.region.length {
        next := CvtAbs(off + size, false);
      } else {
        next := NextArea(info, k);
      }
      NextIs(regions, address, off, size, k, next);
    }

    /** The start of the next area of the same type. */
    method NextArea(start: MmapInfo, ghost k: nat) returns (next: int)
      requires Valid() && k < |infos| && infos[k] == start
      ensures next == FirstBase(regions, regions[k].areaType, k + 1)
    {
      var info := start.next;
      ghost var j := k + 1;
      while info != null && info.region.areaType != start.region.areaType
        invariant k < j <= |infos| && info == At(j)
        invariant FirstBase(regions, regions[k].areaType, j) == FirstBase(regions, regions[k].areaType, k + 1)
        decreases |infos| - j
      {
        info := info.next;
        j := j + 1;
      }
      next := if info != null then info.region.mmapBase else 0;
    }
  }

  /** What is to follow a mapped address: the address `size` further, or the start of the next area of the same type. */
  ghost predicate Follows(regions: seq<Region>, address: int, size: nat, next: int)
  {
    forall i | 0 <= i < |regions| && HasAddress(regions[i], address) ::
      next == if HasAddress(regions[i], address + size) then address + size else FirstBase(regions, regions[i].areaType,
        i + 1)
  }

  lemma NextIs(regions: seq<Region>, address: int, off: int, size: nat, k: nat, next: int)
    requires Sorted(regions) && Plain(regions) && off == RelOf(regions, address, false) && 0 < size && k <= |regions|
    requires
      if k < |regions| then HasOffset(regions[k], off)
      else forall i | 0 <= i < |regions| :: !HasOffset(regions[i], off)
    requires k < |regions| ==>
      next == if off + size < regions[k].fileOffset + regions[k].length then AbsOf(regions, off + size, false)
              else FirstBase(regions, regions[k].areaType, k + 1)
    ensures Follows(regions, address, size, next)
  {
    RelIs(regions, address);
    forall i | 0 <= i < |regions| && HasAddress(regions[i], address)
      ensures next ==
        if HasAddress(regions[i], address + size) then address + size
        else FirstBase(regions, regions[i].areaType, i + 1)
    {
      NextAt(regions, address, off, size, i, k);
    }
  }

  lemma NextAt(regions: seq<Region>, address: int, off: int, size: nat, i: nat, k: nat)
    requires
      && Sorted(regions) && Plain(regions) && off == RelOf(regions, address, false) && 0 < size && i < |regions|
      && k <= |regions|
    requires HasAddress(regions[i], address) && AddressPlace(regions, address) == i
    requires
      if k < |regions| then HasOffset(regions[k], off)
      else forall i | 0 <= i < |regions| :: !HasOffset(regions[i], off)
    ensures
      && i == k && (off + size < regions[i].fileOffset + regions[i].length <==> HasAddress(regions[i], address + size))
    ensures HasAddress(regions[i], address + size) ==> AbsOf(regions, off + size, false) == address + size
  {
    assert 0 < regions[i].mmapBase by {
      assert Look(SORTED, 0);
    }
    assert HasOffset(regions[i], off);
    assert i == k by {
      OneHasOffset(regions, off);
    }
    if HasAddress(regions[i], address + size) {
      assert HasOffset(regions[i], off + size);
      AbsIs(regions, off + size);
    }
  }

  lemma InsertedAt<T>(list: seq<T>, t: T, k: nat)
    requires k <= |list|
    ensures
      var l := list[..k] + [t] + list[k..];
      && |l| == |list| + 1
      && forall i | 0 <= i < |l| :: l[i] == if i < k then list[i] else if i == k then t else list[i - 1]
  {
  }

  lemma Inserted(nodes: seq<MmapInfo>, info: MmapInfo, k: nat)
    requires k <= |nodes| && info !in nodes && forall i, j | 0 <= i < j < |nodes| :: nodes[i] != nodes[j]
    ensures var l := nodes[..k] + [info] + nodes[k..]; forall i, j | 0 <= i < j < |l| :: l[i] != l[j]
  {
    var l := nodes[..k] + [info] + nodes[k..];
    assert forall i | 0 <= i < |l| :: l[i] == if i < k then nodes[i] else if i == k then info else nodes[i - 1];
  }

  lemma InsertedSorted(regions: seq<Region>, region: Region, k: nat)
    requires Sorted(regions) && 0 < region.length && 0 < region.mmapBase && k <= |regions|
    requires forall i | 0 <= i < |regions| :: Separate(regions[i], region)
    requires forall i | 0 <= i < k :: regions[i].fileOffset <= region.fileOffset
    requires k < |regions| ==> region.fileOffset < regions[k].fileOffset
    ensures Sorted(regions[..k] + [region] + regions[k..])
  {
    assert Look(SORTED, 0);
    var l := regions[..k] + [region] + regions[k..];
    forall i, j | 0 <= i < j < |l|
      ensures l[i].fileOffset < l[j].fileOffset && Separate(l[i], l[j])
    {
      assert l[i] == if i < k then regions[i] else if i == k then region else regions[i - 1];
      assert l[j] == if j < k then regions[j] else if j == k then region else regions[j - 1];
    }
  }

  lemma ErasedSorted(regions: seq<Region>, k: nat)
    requires Sorted(regions) && k < |regions|
    ensures Sorted(regions[..k] + regions[k + 1..])
  {
    assert Look(SORTED, 0);
    var l := regions[..k] + regions[k + 1..];
    assert forall i | 0 <= i < |l| :: l[i] == regions[if i < k then i else i + 1];
  }

  /** At most one area has a file offset, and at most one an address. */
  lemma OneHasOffset(regions: seq<Region>, off: int)
    requires Sorted(regions)
    ensures forall i, j |
        0 <= i < |regions| && 0 <= j < |regions| && HasOffset(regions[i], off) && HasOffset(regions[j], off) ::
      i == j
  {
    assert Look(SORTED, 0);
  }

  lemma OneHasAddress(regions: seq<Region>, address: int)
    requires Sorted(regions)
    ensures forall i, j |
        && 0 <= i < |regions| && 0 <= j < |regions| && HasAddress(regions[i], address)
        && HasAddress(regions[j], address) ::
      i == j
  {
    assert Look(SORTED, 0);
  }

  // ---------------------------------------------------------------- what translation means

  /** The place of the first area with a file offset. */
  function OffsetPlace(regions: seq<Region>, off: int): (k: nat)
    ensures k <= |regions|
  {
    if regions == [] || HasOffset(regions[0], off) then 0 else 1 + OffsetPlace(regions[1..], off)
  }

  function AddressPlace(regions: seq<Region>, address: int): (k: nat)
    ensures k <= |regions|
  {
    if regions == [] || HasAddress(regions[0], address) then 0 else 1 + AddressPlace(regions[1..], address)
  }

  function AbsOf(regions: seq<Region>, off: int, isAllowNull: bool): int
  {
    var k := OffsetPlace(regions, off);
    if (!isAllowNull && off == 0) || k == |regions| || regions[k].mmapBase - regions[k].fileOffset == -1 then 0
    else regions[k].mmapBase + (off - regions[k].fileOffset)
  }

  function RelOf(regions: seq<Region>, address: int, isAllowNull: bool): int
  {
    var k := AddressPlace(regions, address);
    if !isAllowNull && address == 0 then 0
    else if k == |regions| then address
    else regions[k].fileOffset + (address - regions[k].mmapBase)
  }

  lemma {:induction false} OffsetPlaceIs(regions: seq<Region>, off: int)
    ensures
      var k := OffsetPlace(regions, off);
      && (forall i | 0 <= i < k :: !HasOffset(regions[i], off))
      && (k < |regions| ==> HasOffset(regions[k], off))
  {
    if regions != [] && !HasOffset(regions[0], off) {
      OffsetPlaceIs(regions[1..], off);
    }
  }

  lemma {:induction false} AddressPlaceIs(regions: seq<Region>, address: int)
    ensures
      var k := AddressPlace(regions, address);
      && (forall i | 0 <= i < k :: !HasAddress(regions[i], address))
      && (k < |regions| ==> HasAddress(regions[k], address))
  {
    if regions != [] && !HasAddress(regions[0], address) {
      AddressPlaceIs(regions[1..], address);
    }
  }

  lemma AbsIs(regions: seq<Region>, off: int)
    requires Sorted(regions)
    ensures forall i | 0 <= i < |regions| && HasOffset(regions[i], off) :: OffsetPlace(regions, off) == i
    ensures OffsetPlace(regions, off) < |regions| ==> HasOffset(regions[OffsetPlace(regions, off)], off)
  {
    OffsetPlaceIs(regions, off);
    OneHasOffset(regions, off);
  }

  lemma RelIs(regions: seq<Region>, address: int)
    requires Sorted(regions)
    ensures forall i | 0 <= i < |regions| && HasAddress(regions[i], address) :: AddressPlace(regions, address) == i
    ensures AddressPlace(regions, address) < |regions| ==> HasAddress(regions[AddressPlace(regions, address)], address)
  {
    AddressPlaceIs(regions, address);
    OneHasAddress(regions, address);
  }

  /** The address of a file offset lies as far behind the base of its area as the offset behind that of the area. */
  lemma AbsExactly(regions: seq<Region>, off: int, isAllowNull: bool)
    requires Sorted(regions)
    ensures forall i |
        && 0 <= i < |regions| && regions[i].fileOffset <= off < regions[i].fileOffset + regions[i].length
        && (isAllowNull || off != 0) && regions[i].mmapBase - regions[i].fileOffset != -1 ::
      AbsOf(regions, off, isAllowNull) == regions[i].mmapBase + (off - regions[i].fileOffset)
    ensures
      (forall i | 0 <= i < |regions| :: !(regions[i].fileOffset <= off < regions[i].fileOffset + regions[i].length)) ==>
        AbsOf(regions, off, isAllowNull) == 0
  {
    AbsIs(regions, off);
    assert forall i | 0 <= i < |regions| :: HasOffset(regions[i], off) ==> OffsetPlace(regions, off) == i;
  }

  /** The file offset of an address, and what is not mapped stays. */
  lemma RelExactly(regions: seq<Region>, address: int, isAllowNull: bool)
    requires Sorted(regions)
    ensures forall i |
        && 0 <= i < |regions| && regions[i].mmapBase <= address < regions[i].mmapBase + regions[i].length
        && (isAllowNull || address != 0) ::
      RelOf(regions, address, isAllowNull) == regions[i].fileOffset + (address - regions[i].mmapBase)
    ensures
      (forall i | 0 <= i < |regions| ::
        !(regions[i].mmapBase <= address < regions[i].mmapBase + regions[i].length)) ==>
        RelOf(regions, address, isAllowNull) == address
  {
    RelIs(regions, address);
    assert forall i | 0 <= i < |regions| :: HasAddress(regions[i], address) ==> AddressPlace(regions, address) == i;
  }

  /** No area is mapped one byte before its file offset, where the loader's -1 would say that it is not mapped. */
  ghost predicate Plain(regions: seq<Region>)
  {
    forall i | 0 <= i < |regions| :: regions[i].mmapBase - regions[i].fileOffset != -1
  }

  /** Areas at page boundaries, in the file and in memory, are never one byte apart. */
  lemma AlignedPlain(regions: seq<Region>, pageSize: nat)
    requires
      && 1 < pageSize
      && forall i | 0 <= i < |regions| :: regions[i].mmapBase % pageSize == 0 && regions[i].fileOffset % pageSize == 0
    ensures Plain(regions)
  {
    forall i | 0 <= i < |regions|
      ensures regions[i].mmapBase - regions[i].fileOffset != -1
    {
      var q1, q2 := regions[i].mmapBase / pageSize, regions[i].fileOffset / pageSize;
      assert regions[i].mmapBase == q1 * pageSize && regions[i].fileOffset == q2 * pageSize;
      MultiplesApart(pageSize, q1, q2);
    }
  }

  lemma MultiplesApart(pageSize: nat, q1: nat, q2: nat)
    requires 1 < pageSize
    ensures q1 * pageSize + 1 != q2 * pageSize
  {
    var t := q2 - q1;
    assert q2 * pageSize - q1 * pageSize == t * pageSize;
    if t <= 0 {
      assert t * pageSize <= 0;
    } else {
      assert (t - 1) * pageSize >= 0 && t * pageSize == (t - 1) * pageSize + pageSize;
    }
  }

  /**
   A mapped file offset other than 0 comes back exactly when its area is not mapped one byte before its file offset.
   */
  lemma AbsThenRel(regions: seq<Region>, off: int)
    requires Sorted(regions) && off != 0 && OffsetPlace(regions, off) < |regions|
    ensures
      var r := regions[OffsetPlace(regions, off)];
      RelOf(regions, AbsOf(regions, off, false), false) == off <==> r.mmapBase - r.fileOffset != -1
  {
    assert Look(SORTED, 0);
    AbsIs(regions, off);
    var k := OffsetPlace(regions, off);
    var address := regions[k].mmapBase + (off - regions[k].fileOffset);
    assert HasAddress(regions[k], address);
    RelIs(regions, address);
  }

  /** A mapped address of a file offset other than 0 comes back under the same condition. */
  lemma RelThenAbs(regions: seq<Region>, address: int)
    requires Sorted(regions) && AddressPlace(regions, address) < |regions| && RelOf(regions, address, false) != 0
    ensures
      var r := regions[AddressPlace(regions, address)];
      AbsOf(regions, RelOf(regions, address, false), false) == address <==> r.mmapBase - r.fileOffset != -1
  {
    assert Look(SORTED, 0);
    RelIs(regions, address);
    var k := AddressPlace(regions, address);
    var off := regions[k].fileOffset + (address - regions[k].mmapBase);
    assert HasOffset(regions[k], off);
    AbsIs(regions, off);
  }

  // ---------------------------------------------------------------- what the walk visits

  /** The start of the first area of a type from place i on, null when there is none. */
  function FirstBase(regions: seq<Region>, areaType: AreaType, i: nat): int
    decreases |regions| - i
  {
    if |regions| <= i then 0
    else if regions[i].areaType == areaType then regions[i].mmapBase
    else FirstBase(regions, areaType, i + 1)
  }

  /** The addresses base, base + size and so on, as long as bytes are left. */
  function Slots(base: int, left: int, size: nat): seq<int>
    requires 0 < size
    decreases left
  {
    if left <= 0 then [] else [base] + Slots(base + size, left - size, size)
  }

  /** The slots of all areas of a type from place i on, in the order of the file. */
  function AllSlots(regions: seq<Region>, areaType: AreaType, size: nat, i: nat): seq<int>
    requires 0 < size
    decreases |regions| - i
  {
    if |regions| <= i then []
    else (if regions[i].areaType == areaType then Slots(regions[i].mmapBase, regions[i].length, size) else [])
         + AllSlots(regions, areaType, size, i + 1)
  }

  /** The walk is at `address`, and `rest` is still to be visited. */
  ghost predicate Walking(regions: seq<Region>, areaType: AreaType, size: nat, address: int, rest: seq<int>)
    requires 0 < size
  {
    forall u: nat {:trigger Look(WALKING, u)} :: Look(WALKING, u) ==>
      if address == 0 then rest == []
      else exists i: nat :: WalkingIn(regions, areaType, size, address, rest, i)
  }

  lemma WalkEnds(regions: seq<Region>, areaType: AreaType, size: nat, rest: seq<int>)
    requires 0 < size && Walking(regions, areaType, size, 0, rest)
    ensures rest == []
  {
    assert Look(WALKING, 0);
  }

  ghost predicate WalkingIn(regions: seq<Region>, areaType: AreaType, size: nat, address: int, rest: seq<int>, i: nat)
    requires 0 < size
  {
    && i < |regions| && regions[i].areaType == areaType && HasAddress(regions[i], address)
    && rest ==
         Slots(address, regions[i].mmapBase + regions[i].length - address, size) + AllSlots(regions, areaType, size,
           i + 1)
  }

  /** The first area of the type, if there is one, is where its slots begin. */
  lemma {:induction false} WalkBegins(regions: seq<Region>, areaType: AreaType, size: nat, i: nat)
    requires Sorted(regions) && 0 < size
    ensures Walking(regions, areaType, size, FirstBase(regions, areaType, i), AllSlots(regions, areaType, size, i))
    decreases |regions| - i
  {
    assert Look(SORTED, 0);
    if i < |regions| {
      if regions[i].areaType == areaType {
        assert WalkingIn(regions, areaType, size, regions[i].mmapBase, AllSlots(regions, areaType, size, i), i);
      } else {
        WalkBegins(regions, areaType, size, i + 1);
        assert AllSlots(regions, areaType, size, i) == AllSlots(regions, areaType, size, i + 1);
      }
    }
  }

  /** One step of the walk visits the first of what is left. */
  lemma WalkGoesOn(regions: seq<Region>, areaType: AreaType, size: nat, address: int, rest: seq<int>, next: int)
    requires
      && Sorted(regions) && 0 < size && address != 0 && Walking(regions, areaType, size, address, rest)
      && Follows(regions, address, size, next)
    ensures rest != [] && rest[0] == address && Walking(regions, areaType, size, next, rest[1..])
  {
    assert Look(WALKING, 0);
    var i: nat :| WalkingIn(regions, areaType, size, address, rest, i);
    var left := regions[i].mmapBase + regions[i].length - address;
    var more := Slots(address + size, left - size, size) + AllSlots(regions, areaType, size, i + 1);
    assert rest == [address] + more;
    assert rest[1..] == more;
    if HasAddress(regions[i], address + size) {
      assert 0 < regions[i].mmapBase by {
        assert Look(SORTED, 0);
      }
      assert WalkingIn(regions, areaType, size, next, more, i);
    } else {
      assert more == AllSlots(regions, areaType, size, i + 1);
      WalkBegins(regions, areaType, size, i + 1);
    }
  }

  /** The loop over all slots of a type: from Begin on with Next. */
  method VisitAll(infos: MmapInfos, areaType: AreaType, size: nat) returns (visited: seq<int>)
    requires infos.Valid() && 0 < size && Plain(infos.regions)
    ensures visited == AllSlots(infos.regions, areaType, size, 0)
  {
    visited := [];
    var address := infos.Begin(areaType);
    ghost var regions, all := infos.regions, AllSlots(infos.regions, areaType, size, 0);
    ghost var rest := all;
    WalkBegins(regions, areaType, size, 0);
    while address != 0
      invariant Walking(regions, areaType, size, address, rest)
      invariant visited + rest == all
      decreases |rest|
    {
      var next := infos.Next(address, size);
      WalkGoesOn(regions, areaType, size, address, rest, next);
      assert visited + [address] + rest[1..] == visited + rest;
      visited := visited + [address];
      address, rest := next, rest[1..];
    }
    WalkEnds(regions, areaType, size, rest);
  }

  lemma {:induction false} SlotsWithin(base: int, left: int, size: nat)
    requires 0 < size
    ensures forall j | 0 <= j < |Slots(base, left, size)| :: base <= Slots(base, left, size)[j] < base + left
    ensures forall j, k | 0 <= j < k < |Slots(base, left, size)| ::
      Slots(base, left, size)[j] < Slots(base, left, size)[k]
    decreases left
  {
    if left > 0 {
      SlotsWithin(base + size, left - size, size);
    }
  }

  /** Every address visited is in an area of the type, at place i or later. */
  lemma {:induction false} VisitedIn(regions: seq<Region>, areaType: AreaType, size: nat, i: nat, j: nat)
    requires 0 < size && j < |AllSlots(regions, areaType, size, i)|
    ensures SlotOf(regions, areaType, i, AllSlots(regions, areaType, size, i)[j])
    decreases |regions| - i
  {
    var here := if regions[i].areaType == areaType then Slots(regions[i].mmapBase, regions[i].length, size) else [];
    var more := AllSlots(regions, areaType, size, i + 1);
    assert AllSlots(regions, areaType, size, i) == here + more;
    if j < |here| {
      SlotsWithin(regions[i].mmapBase, regions[i].length, size);
      assert InArea(regions, areaType, i, here[j], i);
    } else {
      VisitedIn(regions, areaType, size, i + 1, j - |here|);
      SlotOfEarlier(regions, areaType, i, more[j - |here|]);
    }
  }

  /** No address is visited twice. */
  lemma {:induction false} VisitedOnce(regions: seq<Region>, areaType: AreaType, size: nat, i: nat, j: nat, k: nat)
    requires Sorted(regions) && 0 < size && j < k < |AllSlots(regions, areaType, size, i)|
    ensures AllSlots(regions, areaType, size, i)[j] != AllSlots(regions, areaType, size, i)[k]
    decreases |regions| - i
  {
    var here := if regions[i].areaType == areaType then Slots(regions[i].mmapBase, regions[i].length, size) else [];
    var more := AllSlots(regions, areaType, size, i + 1);
    assert AllSlots(regions, areaType, size, i) == here + more;
    if |here| <= j {
      VisitedOnce(regions, areaType, size, i + 1, j - |here|, k - |here|);
    } else if k < |here| {
      SlotsWithin(regions[i].mmapBase, regions[i].length, size);
    } else {
      SlotsWithin(regions[i].mmapBase, regions[i].length, size);
      VisitedIn(regions, areaType, size, i + 1, k - |here|);
      var n: nat :| InArea(regions, areaType, i + 1, more[k - |here|], n);
      assert HasAddress(regions[i], here[j]);
      OneHasAddress(regions, here[j]);
    }
  }

  ghost predicate InArea(regions: seq<Region>, areaType: AreaType, from: nat, address: int, i: nat)
  {
    from <= i < |regions| && regions[i].areaType == areaType && HasAddress(regions[i], address)
  }

  /** The address is in an area of the type, at place `from` or later. */
  ghost predicate SlotOf(regions: seq<Region>, areaType: AreaType, from: nat, address: int)
  {
    exists i: nat :: InArea(regions, areaType, from, address, i)
  }

  lemma SlotOfEarlier(regions: seq<Region>, areaType: AreaType, from: nat, address: int)
    requires SlotOf(regions, areaType, from + 1, address)
    ensures SlotOf(regions, areaType, from, address)
  {
    var i: nat :| InArea(regions, areaType, from + 1, address, i);
    assert InArea(regions, areaType, from, address, i);
  }

  lemma {:induction false} SlotThere(base: int, left: int, size: nat, k: nat)
    requires 0 < size && k * size < left
    ensures base + k * size in Slots(base, left, size)
    decreases k
  {
    if k > 0 {
      assert k * size == (k - 1) * size + size && 0 <= (k - 1) * size;
      SlotThere(base + size, left - size, size, k - 1);
    }
  }

  lemma {:induction false} SlotIs(base: int, left: int, size: nat, address: int) returns (k: nat)
    requires 0 < size && address in Slots(base, left, size)
    ensures address == base + k * size && k * size < left
    decreases left
  {
    if address == base {
      k := 0;
    } else {
      k := SlotIs(base + size, left - size, size, address);
      k := k + 1;
      assert k * size == (k - 1) * size + size;
    }
  }

  /** The address is that of slot k of area i, which is of the type. */
  predicate SlotAt(regions: seq<Region>, areaType: AreaType, size: nat, i: nat, k: nat, address: int)
  {
    && i < |regions| && regions[i].areaType == areaType && k * size < regions[i].length
    && address == regions[i].mmapBase + k * size
  }

  /** Every slot of every area of the type is visited, wherever the area is in the list, and nothing else is. */
  lemma {:induction false} VisitedExactly(regions: seq<Region>, areaType: AreaType, size: nat, i: nat, address: int)
    requires 0 < size
    ensures address in AllSlots(regions, areaType, size, i) <==>
      exists j: nat, k: nat :: i <= j && SlotAt(regions, areaType, size, j, k, address)
    decreases |regions| - i
  {
    if i < |regions| {
      var here := if regions[i].areaType == areaType then Slots(regions[i].mmapBase, regions[i].length, size) else [];
      VisitedExactly(regions, areaType, size, i + 1, address);
      if address in here {
        var k := SlotIs(regions[i].mmapBase, regions[i].length, size, address);
        assert SlotAt(regions, areaType, size, i, k, address);
      }
      if k: nat :| SlotAt(regions, areaType, size, i, k, address) {
        SlotThere(regions[i].mmapBase, regions[i].length, size, k);
      }
    }
  }

  /** An area whose length is n times the slot size has n slots, at multiples of the size. */
  lemma {:induction false} WholeSlots(base: int, n: nat, size: nat, k: nat)
    requires 0 < size && k < n
    ensures |Slots(base, n * size, size)| == n && Slots(base, n * size, size)[k] == base + k * size
    decreases n
  {
    assert n * size - size == (n - 1) * size && n * size > 0;
    if k > 0 {
      WholeSlots(base + size, n - 1, size, k - 1);
      assert k * size == (k - 1) * size + size;
    } else if n > 1 {
      WholeSlots(base + size, n - 1, size, 0);
    }
  }
}
