/**
 Which KINDEX is responsible for a hash while some KINDEXs are not assigned yet: the slot
 of the longest prefix of the shifted hash that is assigned.
 */
module KIndexHome {
  import opened Layout
  import opened KeyIndexPos

  /** The assign member of every allocated KINDEX. */
  type AssignMap = map<KPos, bool>

  predicate Assigned(ka: AssignMap, v: nat)
  {
    PosOf(v) in ka && ka[PosOf(v)]
  }

  /** Masks of n bits: every slot exists, the first two are assigned, and so is every prefix of an assigned value. */
  ghost predicate Prefixed(ka: AssignMap, n: nat)
  {
    && n >= 1
    && (forall pos :: pos in ka <==> Allocated(pos, n))
    && Assigned(ka, 0) && Assigned(ka, 1)
    && (forall v: nat, k: nat | Assigned(ka, v) :: Assigned(ka, Low(v, k)))
  }

  /** The widest mask of at most k bits under which the slot of s is assigned. */
  function HomeBits(ka: AssignMap, s: nat, k: nat): (r: nat)
    ensures r <= k
    ensures forall i | r < i <= k :: !Assigned(ka, Low(s, i))
    ensures r > 0 ==> Assigned(ka, Low(s, r))
  {
    if k == 0 || Assigned(ka, Low(s, k)) then k else HomeBits(ka, s, k - 1)
  }

  /** The masked hash whose slot holds the elements with shifted hash s. */
  function Home(ka: AssignMap, s: nat, n: nat): nat
  {
    Low(s, HomeBits(ka, s, n))
  }

  /** A slot that is assigned while those of all wider masks are not is the home. */
  lemma {:induction false} HomeFound(ka: AssignMap, s: nat, n: nat, k: nat)
    requires k <= n && Assigned(ka, Low(s, k)) && forall i | k < i <= n :: !Assigned(ka, Low(s, i))
    ensures Home(ka, s, n) == Low(s, k)
  {
    if k < n {
      HomeFound(ka, s, n - 1, k);
    }
  }

  lemma HomeAssigned(ka: AssignMap, s: nat, n: nat)
    requires Prefixed(ka, n)
    ensures HomeBits(ka, s, n) > 0
    ensures Assigned(ka, Home(ka, s, n))
    ensures Assigned(ka, Low(s, n)) ==> Home(ka, s, n) == Low(s, n)
  {
    FirstBitAssigned(ka, n, s);
  }

  lemma FirstBitAssigned(ka: AssignMap, n: nat, s: nat)
    requires Prefixed(ka, n)
    ensures Assigned(ka, Low(s, 1))
  {
    assert Low(s, 1) == s % 2 + 2 * Low(s / 2, 0);
  }

  /** Clearing the top bit of an assigned value gives an assigned value. */
  lemma TopBitClearedAssigned(ka: AssignMap, n: nat, v: nat)
    requires Prefixed(ka, n) && Assigned(ka, v) && v > 0
    ensures BitLength(v) > 0 && Pow2(BitLength(v) - 1) <= v && Assigned(ka, v - Pow2(BitLength(v) - 1))
  {
    TopBitCleared(v);
    assert Assigned(ka, Low(v, BitLength(v) - 1));
  }

  /** What the slots under k and k-1 bits of s have to do with each other when they differ. */
  lemma UpperLower(s: nat, k: nat, s': nat, i: nat)
    requires k >= 1 && Low(s, k) != Low(s, k - 1)
    requires Low(s', i) == Low(s, k)
    ensures i >= k && Low(s', k) == Low(s, k) && Low(s', k - 1) == Low(s, k - 1)
  {
    LowStepCases(s, k - 1);
    if i < k {
      Pow2Monotone(i, k - 1);
      assert false;
    }
    LowLow(s', k, i);
    LowLow(Low(s, k), k, k);
    LowFits(Low(s, k), k);
    LowLow(s', k - 1, k);
    LowLow(s, k - 1, k);
  }

  function Assign(ka: AssignMap, v: nat): AssignMap
  {
    ka[PosOf(v) := true]
  }

  lemma AssignOnly(ka: AssignMap, u: nat, v: nat)
    ensures Assigned(Assign(ka, u), v) <==> Assigned(ka, v) || v == u
  {
    PosInjective(u, v);
  }

  /** The home of s' when the newly assigned slot is one of its longer prefixes. */
  lemma HomeTakenOver(ka: AssignMap, n: nat, s: nat, k: nat, s': nat, i: nat)
    requires Prefixed(ka, n) && 1 <= k <= n
    requires Assigned(ka, Low(s, k - 1)) && Low(s, k) != Low(s, k - 1)
    requires HomeBits(ka, s', n) < i <= n && Low(s', i) == Low(s, k)
    ensures Home(ka, s', n) == Low(s, k - 1) && Low(s', k) == Low(s, k)
    ensures Home(Assign(ka, Low(s, k)), s', n) == Low(s, k)
  {
    var u, hb := Low(s, k), HomeBits(ka, s', n);
    UpperLower(s, k, s', i);
    HomeAssigned(ka, s', n);
    assert Assigned(ka, Low(Low(s', hb), k));
    if hb >= k {
      LowLow(s', k, hb);
      assert false;
    }
    assert hb == k - 1;
    var hb' := HomeBits(Assign(ka, u), s', n);
    AssignOnly(ka, u, Low(s', i));
    AssignOnly(ka, u, Low(s', hb'));
  }

  lemma {:induction false} HomeBitsUntouched(ka: AssignMap, u: nat, s: nat, k: nat)
    requires forall i | HomeBits(ka, s, k) < i <= k :: Low(s, i) != u
    ensures HomeBits(Assign(ka, u), s, k) == HomeBits(ka, s, k)
  {
    AssignOnly(ka, u, Low(s, k));
    if k > 0 && !Assigned(ka, Low(s, k)) {
      HomeBitsUntouched(ka, u, s, k - 1);
    }
  }

  lemma HomeUntouched(ka: AssignMap, n: nat, s: nat, k: nat, s': nat)
    requires Prefixed(ka, n) && 1 <= k <= n
    requires Low(s, k) != Low(s, k - 1)
    requires forall i | HomeBits(ka, s', n) < i <= n :: Low(s', i) != Low(s, k)
    ensures Home(Assign(ka, Low(s, k)), s', n) == Home(ka, s', n)
    ensures !(Home(ka, s', n) == Low(s, k - 1) && Low(s', k) == Low(s, k))
  {
    var u, hb := Low(s, k), HomeBits(ka, s', n);
    HomeAssigned(ka, s', n);
    HomeBitsUntouched(ka, u, s', n);
    if Low(s', k) == u {
      assert hb >= k;
      LowLow(s', k, hb);
      Pow2Monotone(k - 1, k);
      LowFits(Low(s, k - 1), k);
    }
  }

  /**
   Assigning the slot under k bits of s, whose prefix under k-1 bits is assigned, takes over from that
   prefix exactly the hashes with these k bits.
   */
  lemma HomeAfterAssign(ka: AssignMap, n: nat, s: nat, k: nat, s': nat)
    requires Prefixed(ka, n) && 1 <= k <= n
    requires Assigned(ka, Low(s, k - 1)) && Low(s, k) != Low(s, k - 1)
    ensures
      Home(Assign(ka, Low(s, k)), s', n) ==
        if Home(ka, s', n) == Low(s, k - 1) && Low(s', k) == Low(s, k) then Low(s, k) else Home(ka, s', n)
  {
    if i :| HomeBits(ka, s', n) < i <= n && Low(s', i) == Low(s, k) {
      HomeTakenOver(ka, n, s, k, s', i);
    } else {
      HomeUntouched(ka, n, s, k, s');
    }
  }

  lemma PrefixedAfterAssign(ka: AssignMap, n: nat, s: nat, k: nat)
    requires Prefixed(ka, n) && 1 <= k <= n
    requires Assigned(ka, Low(s, k - 1))
    ensures Prefixed(Assign(ka, Low(s, k)), n)
    ensures forall v: nat :: Assigned(Assign(ka, Low(s, k)), v) <==> Assigned(ka, v) || v == Low(s, k)
  {
    var u := Low(s, k);
    var ka' := Assign(ka, u);
    Pow2Monotone(k, n);
    SlotExists(u, n);
    forall v: nat
      ensures Assigned(ka', v) <==> Assigned(ka, v) || v == u
    {
      AssignOnly(ka, u, v);
    }
    forall v: nat, j: nat | Assigned(ka', v)
      ensures Assigned(ka', Low(v, j))
    {
      if v == u {
        if j >= k {
          Pow2Monotone(k, j);
          LowFits(u, j);
        } else {
          LowLow(s, j, k);
          LowLow(s, j, k - 1);
          assert Assigned(ka, Low(Low(s, k - 1), j));
        }
      } else {
        assert Assigned(ka, Low(v, j));
      }
    }
  }

  /** The slots that ExpandKIndexArea adds, not assigned. */
  ghost predicate Expanded(ka: AssignMap, ka': AssignMap, n: nat)
  {
    && (forall pos :: pos in ka' <==> Allocated(pos, n + 1))
    && (forall pos | pos in ka' :: ka'[pos] == (pos in ka && ka[pos]))
  }

  /** Widening the mask changes no home. */
  lemma HomeAfterExpand(ka: AssignMap, ka': AssignMap, n: nat, s: nat)
    requires Prefixed(ka, n) && Expanded(ka, ka', n)
    ensures Prefixed(ka', n + 1)
    ensures forall v: nat :: Assigned(ka', v) <==> Assigned(ka, v)
    ensures Home(ka', s, n + 1) == Home(ka, s, n)
  {
    forall v: nat
      ensures Assigned(ka', v) <==> Assigned(ka, v)
    {
    }
    LowStepCases(s, n);
    if Low(s, n + 1) != Low(s, n) {
      ExpandedSlots(Low(s, n + 1), n);
      assert !Assigned(ka, Low(s, n + 1));
    }
    HomeOfSame(ka, ka', s, n);
  }

  lemma {:induction false} HomeOfSame(ka: AssignMap, ka': AssignMap, s: nat, k: nat)
    requires forall v: nat :: Assigned(ka', v) <==> Assigned(ka, v)
    ensures HomeBits(ka', s, k) == HomeBits(ka, s, k)
  {
    if k > 0 && !Assigned(ka, Low(s, k)) {
      HomeOfSame(ka, ka', s, k - 1);
    }
  }

  /** With every slot assigned, as in a new file, each hash is at home under the whole mask. */
  lemma AllAssigned(ka: AssignMap, n: nat)
    requires n >= 1
    requires forall pos :: pos in ka <==> Allocated(pos, n)
    requires forall pos | pos in ka :: ka[pos]
    ensures Prefixed(ka, n)
  {
    forall v: nat
      ensures Assigned(ka, v) <==> v < Pow2(n)
    {
      if v < Pow2(n) {
        SlotExists(v, n);
      }
      if Allocated(PosOf(v), n) {
        SlotValue(PosOf(v), n);
      }
    }
    Pow2Monotone(1, n);
  }
}
