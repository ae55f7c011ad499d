/**
 Where a masked hash value lives among the KINDEX arrays: key_index_area[b]
 holds the slots of the values of bit length b, indexed by the value without
 its top bit (K2HShm::GetKIndexPos, MakeMask, GetMaskBitCount).
 */
module KeyIndexPos {
  import opened Layout

  datatype KPos = KPos(ptrPos: nat, arrPos: nat)

  function BitLength(v: nat): nat
  {
    if v == 0 then 0 else 1 + BitLength(v / 2)
  }

  /** Number of KINDEX entries in the array key_index_area[i]. */
  function ArraySize(i: nat): nat
  {
    if i == 0 then 1 else Pow2(i - 1)
  }

  /** The slots that exist while cur_mask has n bits. */
  predicate Allocated(pos: KPos, n: nat)
  {
    pos.ptrPos <= n && pos.arrPos < ArraySize(pos.ptrPos)
  }

  function PosOf(v: nat): KPos
  {
    var b := BitLength(v);
    KPos(b, if b == 0 then 0 else Low(v, b - 1))
  }

  function ValueOf(pos: KPos): nat
  {
    if pos.ptrPos == 0 then 0 else Pow2(pos.ptrPos - 1) + pos.arrPos
  }

  lemma {:induction false} BitLengthBounds(v: nat)
    ensures v < Pow2(BitLength(v))
    ensures v > 0 ==> BitLength(v) > 0 && Pow2(BitLength(v) - 1) <= v
  {
    if v > 0 {
      BitLengthBounds(v / 2);
    }
  }

  lemma {:induction false} BitLengthUnique(v: nat, b: nat)
    requires v < Pow2(b)
    requires b > 0 ==> Pow2(b - 1) <= v
    ensures BitLength(v) == b
  {
    if b > 1 {
      BitLengthUnique(v / 2, b - 1);
    }
  }

  lemma TopBitCleared(v: nat)
    requires v > 0
    ensures BitLength(v) > 0
    ensures v == Pow2(BitLength(v) - 1) + Low(v, BitLength(v) - 1)
  {
    BitLengthBounds(v);
    LowStepCases(v, BitLength(v) - 1);
    LowFits(v, BitLength(v));
  }

  /** GetKIndexPos is a bijection between the masked hashes and the allocated slots: PosOf lands on a slot... */
  lemma SlotExists(v: nat, n: nat)
    requires v < Pow2(n)
    ensures Allocated(PosOf(v), n)
    ensures ValueOf(PosOf(v)) == v
  {
    BitLengthBounds(v);
    if v > 0 {
      TopBitCleared(v);
      if BitLength(v) > n {
        Pow2Monotone(n, BitLength(v) - 1);
      }
    }
  }

  /** ...and every allocated slot is the slot of exactly one masked hash. */
  lemma SlotValue(pos: KPos, n: nat)
    requires Allocated(pos, n)
    ensures ValueOf(pos) < Pow2(n)
    ensures PosOf(ValueOf(pos)) == pos
    ensures forall v: nat | PosOf(v) == pos :: v == ValueOf(pos)
  {
    var v := ValueOf(pos);
    if pos.ptrPos > 0 {
      Pow2Monotone(pos.ptrPos, n);
      BitLengthUnique(v, pos.ptrPos);
      LowStepCases(v, pos.ptrPos - 1);
      LowFits(v, pos.ptrPos);
    }
    forall w: nat | PosOf(w) == pos
      ensures w == v
    {
      BitLengthBounds(w);
      SlotExists(w, BitLength(w));
    }
  }

  lemma PosInjective(v: nat, w: nat)
    ensures PosOf(v) == PosOf(w) <==> v == w
  {
    BitLengthBounds(v);
    BitLengthBounds(w);
    SlotExists(v, BitLength(v));
    SlotExists(w, BitLength(w));
  }

  /** A slot belongs to the array that ExpandKIndexArea adds at n bits exactly when its value has the new top bit. */
  lemma ExpandedSlots(v: nat, n: nat)
    requires v < Pow2(n + 1)
    ensures PosOf(v).ptrPos == n + 1 <==> Pow2(n) <= v
    ensures Pow2(n) <= v ==> PosOf(v).arrPos == v - Pow2(n)
    ensures ArraySize(n + 1) == Pow2(n)
  {
    SlotExists(v, n + 1);
    BitLengthBounds(v);
    if Pow2(n) <= v {
      BitLengthUnique(v, n + 1);
    }
  }

  /** The slots under a mask and under its half coincide exactly when the top bit is clear. */
  lemma HalfMaskSlot(s: nat, k: nat)
    requires k > 0
    ensures PosOf(Low(s, k)) == PosOf(Low(s, k - 1)) <==> Low(s, k) < Pow2(k - 1)
  {
    PosInjective(Low(s, k), Low(s, k - 1));
    LowStepCases(s, k - 1);
  }

  method MakeMask(bitcnt: nat) returns (mask: nat)
    ensures mask == Pow2(bitcnt) - 1
  {
    mask := 0;
    var left := bitcnt;
    while 0 < left
      invariant 0 <= left <= bitcnt
      invariant mask == Pow2(bitcnt - left) - 1
    {
      mask := mask * 2 + 1;
      left := left - 1;
    }
  }

  method GetMaskBitCount(mask: nat) returns (bitcnt: nat)
    ensures bitcnt == BitLength(mask)
    ensures forall n: nat | mask == Pow2(n) - 1 :: bitcnt == n
  {
    bitcnt := 0;
    var rest := mask;
    while 0 != rest
      invariant BitLength(mask) == bitcnt + BitLength(rest)
    {
      rest := rest / 2;
      bitcnt := bitcnt + 1;
    }
    forall n: nat | mask == Pow2(n) - 1
      ensures BitLength(mask) == n
    {
      BitLengthUnique(mask, n);
    }
  }

  /**
   The position of a hash's slot under a mask of maskBits bits; fails when that mask
   is wider than the current one.
   */
  method GetKIndexPos(hash: nat, collisionBits: nat, curMaskBits: nat, maskBits: nat)
    returns (ok: bool, ptrPos: nat, arrPos: nat)
    ensures ok <==> maskBits <= curMaskBits
    ensures ok ==> KPos(ptrPos, arrPos) == PosOf(Low(Shift(hash, collisionBits), maskBits))
    ensures ok ==> Allocated(KPos(ptrPos, arrPos), curMaskBits)
  {
    ptrPos, arrPos := 0, 0;
    if curMaskBits < maskBits {
      return false, 0, 0;
    }
    ok := true;
    var shifted := Shift(hash, collisionBits);
    var masked := Low(shifted, maskBits);
    var bitmask := 0;
    // masked & ~bitmask is non-zero exactly while masked is above the low mask bitmask
    while bitmask < masked
      invariant bitmask == Pow2(ptrPos) - 1
      invariant ptrPos <= maskBits
      invariant ptrPos > 0 ==> Pow2(ptrPos - 1) <= masked
      decreases maskBits - ptrPos
    {
      if maskBits <= ptrPos {
        Pow2Monotone(maskBits, ptrPos);
      }
      ptrPos := ptrPos + 1;
      bitmask := bitmask * 2 + 1;
    }
    assert masked < Pow2(ptrPos);
    BitLengthUnique(masked, ptrPos);
    var arrBits := if 0 < ptrPos then ptrPos - 1 else 0;
    arrPos := Low(shifted, arrBits);
    LowLow(shifted, arrBits, maskBits);
    assert Low(shifted, 0) == 0;
    Pow2Monotone(maskBits, curMaskBits);
    SlotExists(masked, curMaskBits);
  }
}
