/**
 Trees below CKINDEXs, and moves of elements from the tree of one CKINDEX to the tree of
 another (K2HShm::MoveElementToUpperMask).
 */
module TreeMoves {
  import opened Layout
  import opened KeyIndexPos
  import opened ElementTree
  import opened ElementLinks

  /** A collision key index: the number of elements below it and the root of their tree. */
  datatype CKIndex = CKIndex(elementCount: nat, elementList: Ptr)

  /** The address of a CKINDEX: the KINDEX slot that owns it and its place in that slot's list. */
  datatype CKPtr = CKPtr(pos: KPos, ckpos: nat)

  /** The hash of an element without the bits that choose the CKINDEX. */
  function ShiftedHash(b: BodyHeap, p: Ptr, collisionBits: nat): nat
    requires p in b
  {
    Shift(b[p].hash, collisionBits)
  }

  /** The elements of s whose shifted hash under the mask of k bits is val. */
  ghost function Matching(b: BodyHeap, s: set<Ptr>, collisionBits: nat, k: nat, val: nat): set<Ptr>
  {
    set p | p in s && p in b && Low(ShiftedHash(b, p, collisionBits), k) == val
  }

  type CKHeap = map<CKPtr, CKIndex>

  /** c' has the keys of c and differs from it only inside s. */
  ghost predicate CKOutside(c: CKHeap, c': CKHeap, s: set<CKPtr>)
  {
    c'.Keys == c.Keys && forall cp | cp in c && cp !in s :: c'[cp] == c[cp]
  }

  /** The CKINDEX at cp is the top of the tree t: exact count, right root, linked and ordered. */
  ghost predicate Holds(b: BodyHeap, h: LinkHeap, c: CKHeap, cp: CKPtr, t: Tree)
  {
    cp in c && c[cp] == CKIndex(Size(t), RootPtr(t)) && Linked(h, NULL, t) && Ordered(b, t)
  }

  /** The tree t is the subtree of src at ctx and d is the tree of dst; the two share no element. */
  ghost predicate Between(b: BodyHeap, h: LinkHeap, c: CKHeap, src: CKPtr, dst: CKPtr, ctx: Ctx, t: Tree, d: Tree)
  {
    forall u: nat {:trigger Look(BETWEEN, u)} :: Look(BETWEEN, u) ==>
      src != dst && Holds(b, h, c, src, Plug(ctx, t)) && Holds(b, h, c, dst, d) && Ptrs(Plug(ctx, t)) !! Ptrs(d)
  }

  /**
   One move: the elements m, and no others, went from the subtree of src at ctx, which was t and
   is t', to dst, whose tree was d and is d'.  Nothing outside the two trees was written.
   */
  datatype Move = Move(src: CKPtr, dst: CKPtr, ctx: Ctx, t: Tree, d: Tree, t': Tree, d': Tree)

  ghost predicate Moved(b: BodyHeap, h: LinkHeap, c: CKHeap, h': LinkHeap, c': CKHeap, v: Move, m: set<Ptr>)
  {
    Between(b, h', c', v.src, v.dst, v.ctx, v.t', v.d') && Carried(h, c, h', c', v, m)
  }

  /** Which elements moved, and what was written. */
  ghost predicate Carried(h: LinkHeap, c: CKHeap, h': LinkHeap, c': CKHeap, v: Move, m: set<Ptr>)
  {
    forall u: nat {:trigger Look(CARRIED, u)} :: Look(CARRIED, u) ==>
      && m <= Ptrs(v.t) && Ptrs(v.t') == Ptrs(v.t) - m && Ptrs(v.d') == Ptrs(v.d) + m
      && SameOutside(h, h', Ptrs(Plug(v.ctx, v.t)) + Ptrs(v.d))
      && CKOutside(c, c', {v.src, v.dst})
  }

  lemma MovedBoth(s: set<Ptr>, d: set<Ptr>, m1: set<Ptr>, m2: set<Ptr>)
    ensures s - m1 - m2 == s - (m1 + m2) && d + m1 + m2 == d + (m1 + m2)
  {
  }

  /** Moves between the same two trees, one after the other, are one move. */
  lemma MovedTwice(b: BodyHeap, h: LinkHeap, c: CKHeap, h1: LinkHeap, c1: CKHeap, h2: LinkHeap, c2: CKHeap,
                   v: Move, w: Move, m1: set<Ptr>, m2: set<Ptr>)
    requires Moved(b, h, c, h1, c1, v, m1) && Moved(b, h1, c1, h2, c2, w, m2)
    requires w.src == v.src && w.dst == v.dst && w.ctx == v.ctx && w.t == v.t' && w.d == v.d'
    ensures Moved(b, h, c, h2, c2, v.(t' := w.t', d' := w.d'), m1 + m2)
  {
    assert Look(CARRIED, 0) && Look(BETWEEN, 0);
    MovedBoth(Ptrs(v.t), Ptrs(v.d), m1, m2);
    PlugPtrs(v.ctx, v.t);
    PlugPtrs(v.ctx, v.t');
    var whole := Ptrs(Plug(v.ctx, v.t)) + Ptrs(v.d);
    SameOutsideBoth(h, h1, h2, whole, Ptrs(Plug(w.ctx, w.t)) + Ptrs(w.d), whole);
  }

  lemma NoneMoved(b: BodyHeap, h: LinkHeap, c: CKHeap, src: CKPtr, dst: CKPtr, ctx: Ctx, t: Tree, d: Tree)
    requires Between(b, h, c, src, dst, ctx, t, d)
    ensures Moved(b, h, c, h, c, Move(src, dst, ctx, t, d, t, d), {})
  {
    MovedNothing(Ptrs(t), Ptrs(d));
  }

  lemma MovedNothing(s: set<Ptr>, d: set<Ptr>)
    ensures s - {} == s && d + {} == d
  {
  }

  /** A move out of the small subtree of a node is a move out of the node. */
  lemma MovedOutOfSmall(b: BodyHeap, h: LinkHeap, c: CKHeap, h': LinkHeap, c': CKHeap, ctx: Ctx, t: Tree, v: Move,
                        m: set<Ptr>)
    requires t.Node? && Ordered(b, t)
    requires v.ctx == SmallOf(t.chain, t.big, ctx) && v.t == t.small && Moved(b, h, c, h', c', v, m)
    ensures Moved(b, h, c, h', c', v.(ctx := ctx, t := t, t' := Node(t.chain, v.t', t.big)), m)
  {
    assert Look(CARRIED, 0) && Look(BETWEEN, 0);
    NodeDisjoint(b, t);
  }

  lemma MovedOutOfBig(b: BodyHeap, h: LinkHeap, c: CKHeap, h': LinkHeap, c': CKHeap, ctx: Ctx, t: Tree, v: Move,
                      m: set<Ptr>)
    requires t.Node? && Ordered(b, t)
    requires v.ctx == BigOf(t.chain, t.small, ctx) && v.t == t.big && Moved(b, h, c, h', c', v, m)
    ensures Moved(b, h, c, h', c', v.(ctx := ctx, t := t, t' := Node(t.chain, t.small, v.t')), m)
  {
    assert Look(CARRIED, 0) && Look(BETWEEN, 0);
    NodeDisjoint(b, t);
  }

  lemma MovedPtrs(b: BodyHeap, ctx: Ctx, t: Tree, d: Tree, e: Ptr)
    requires Ordered(b, Plug(ctx, t)) && Ordered(b, t) && Ordered(b, d)
    requires t.Node? && e in t.chain && e in b && e != NULL
    requires Ptrs(Plug(ctx, t)) !! Ptrs(d)
    ensures e in Ptrs(t) && e in Ptrs(Plug(ctx, t)) && e !in Ptrs(d)
    ensures
      var t', d' := TakeNode(b, t, e, ctx.BigOf?), AddTree(b, d, e);
      && Ordered(b, Plug(ctx, t'))
      && Ptrs(Plug(ctx, t')) == Ptrs(Plug(ctx, t)) - {e} && Ptrs(t') == Ptrs(t) - {e}
      && Ptrs(d') == Ptrs(d) + {e}
  {
    assert e in ChainSet(t.chain);
    PlugPtrs(ctx, t);
    TakenFromTree(b, ctx, t, e, ctx.BigOf?);
    TakenNode(b, t, e, ctx.BigOf?);
    AddedTree(b, d, e);
  }

  /** Between taking e off src and putting it below dst. */
  lemma TakenFirst(b: BodyHeap, h: LinkHeap, c: CKHeap, h1: LinkHeap, c1: CKHeap,
                   src: CKPtr, dst: CKPtr, ctx: Ctx, t: Tree, d: Tree, e: Ptr)
    requires Between(b, h, c, src, dst, ctx, t, d)
    requires Takeable(b, h, ctx, t, e) && e in h && TakenOff(b, h, h1, ctx, t, e) && CKOutside(c, c1, {src})
    ensures Holds(b, h1, c1, dst, d)
    ensures e in b && e != NULL && e !in Ptrs(d)
  {
    assert Look(BETWEEN, 0);
    LinkedBeside(h, h1, Ptrs(Plug(ctx, t)), d);
    assert t.chain == t.chain && e in ChainSet(t.chain);
    MovedPtrs(b, ctx, t, d, e);
  }

  /** The two trees after e went from one to the other. */
  lemma CarriedOver(b: BodyHeap, h: LinkHeap, c: CKHeap, h1: LinkHeap, c1: CKHeap, h2: LinkHeap, c2: CKHeap, v: Move,
                    e: Ptr)
    requires v.src != v.dst && Holds(b, h1, c1, v.src, Plug(v.ctx, v.t')) && Holds(b, h2, c2, v.dst, v.d')
    requires Ptrs(Plug(v.ctx, v.t)) !! Ptrs(v.d) && e in Ptrs(v.t) && e in Ptrs(Plug(v.ctx, v.t))
    requires Ptrs(Plug(v.ctx, v.t')) == Ptrs(Plug(v.ctx, v.t)) - {e} && Ptrs(v.t') == Ptrs(v.t) - {e}
    requires Ptrs(v.d') == Ptrs(v.d) + {e}
    requires SameOutside(h, h1, Ptrs(Plug(v.ctx, v.t))) && CKOutside(c, c1, {v.src})
    requires SameOutside(h1, h2, Ptrs(v.d) + {e}) && CKOutside(c1, c2, {v.dst})
    ensures Moved(b, h, c, h2, c2, v, {e})
  {
    LinkedBeside(h1, h2, Ptrs(v.d) + {e}, Plug(v.ctx, v.t'));
    SameOutsideBoth(h, h1, h2, Ptrs(Plug(v.ctx, v.t)), Ptrs(v.d) + {e}, Ptrs(Plug(v.ctx, v.t)) + Ptrs(v.d));
  }

  lemma PutThen(b: BodyHeap, h: LinkHeap, c: CKHeap, h1: LinkHeap, c1: CKHeap, h2: LinkHeap, c2: CKHeap, v: Move,
                e: Ptr)
    requires Between(b, h, c, v.src, v.dst, v.ctx, v.t, v.d)
    requires Takeable(b, h, v.ctx, v.t, e) && e in h && TakenOff(b, h, h1, v.ctx, v.t, e) && !Stranding(h[e])
    requires e in b && e != NULL && Ordered(b, v.d)
    requires v.t' == TakeNode(b, v.t, e, v.ctx.BigOf?) && v.d' == AddTree(b, v.d, e)
    requires c1 == c[v.src := CKIndex(Size(Plug(v.ctx, v.t')), RootPtr(Plug(v.ctx, v.t')))]
    requires Holds(b, h2, c2, v.dst, v.d') && CKOutside(c1, c2, {v.dst}) && SameOutside(h1, h2, Ptrs(v.d) + {e})
    ensures Moved(b, h, c, h2, c2, v, {e})
  {
    assert Look(BETWEEN, 0);
    MovedPtrs(b, v.ctx, v.t, v.d, e);
    assert Holds(b, h1, c1, v.src, Plug(v.ctx, v.t'));
    CarriedOver(b, h, c, h1, c1, h2, c2, v, e);
  }

  /** The links of a chain member, read off the tree. */
  lemma ChainLinks(b: BodyHeap, h: LinkHeap, ctx: Ctx, t: Tree, i: nat)
    requires t.Node? && i < |t.chain| && Ordered(b, Plug(ctx, t)) && Linked(h, NULL, Plug(ctx, t))
    ensures Ordered(b, t)
    ensures t.chain[i] in h && t.chain[i] in b && t.chain[i] != NULL
    ensures h[t.chain[i]].same == if i + 1 < |t.chain| then t.chain[i + 1] else NULL
    ensures h[t.chain[i]].small == if i == 0 then RootPtr(t.small) else NULL
    ensures h[t.chain[i]].big == if i == 0 then RootPtr(t.big) else NULL
    ensures i + 1 < |t.chain| ==> t.chain[i + 1] != NULL && t.chain[i + 1] in b
    ensures t.small.Node? <==> RootPtr(t.small) != NULL
    ensures t.big.Node? <==> RootPtr(t.big) != NULL
  {
    AroundNode(b, h, ctx, t);
    SameAt(h, t.chain, i);
    RootNonNull(b, t.small);
    RootNonNull(b, t.big);
  }

  /** The element matches the target val under the mask of k bits. */
  predicate Matches(b: BodyHeap, e: Ptr, collisionBits: nat, k: nat, val: nat)
    requires e in b
  {
    Low(ShiftedHash(b, e, collisionBits), k) == val
  }

  /** The members `rest` of the chain of e, if e matches the target. */
  function MatchingRest(b: BodyHeap, e: Ptr, rest: seq<Ptr>, collisionBits: nat, k: nat, val: nat): set<Ptr>
    requires e in b
  {
    if Matches(b, e, collisionBits, k, val) then ChainSet(rest) else {}
  }

  /** One subhash, one hash: the members of a chain match the target together or not at all. */
  lemma ChainMatches(b: BodyHeap, t: Tree, i: nat, j: nat, cb: nat, k: nat, val: nat)
    requires t.Node? && Ordered(b, t) && SubhashDecides(b, ChainSet(t.chain))
    requires i < |t.chain| && j < |t.chain| && t.chain[i] in b && t.chain[j] in b
    ensures Matches(b, t.chain[i], cb, k, val) == Matches(b, t.chain[j], cb, k, val)
  {
    assert t.chain[i] in ChainSet(t.chain) && t.chain[j] in ChainSet(t.chain);
  }

  /** The tree whose chain is cut behind member i. */
  lemma ChainCut(b: BodyHeap, t: Tree, i: nat)
    requires t.Node? && Ordered(b, t) && 0 < i < |t.chain|
    ensures
      var t1 := Node(t.chain[..i + 1], t.small, t.big);
      && Ordered(b, t1) && t.chain[i] in t1.chain
      && Without(t1.chain, t.chain[i]) == t.chain[..i]
  {
    var c := t.chain[..i + 1];
    assert forall p | p in c :: p in t.chain;
    WithoutAt(c, i);
    assert c[i] == t.chain[i] && c[..i] == t.chain[..i] && c[i + 1..] == [];
  }

  lemma ChainTail(chain: seq<Ptr>, i: nat)
    requires i < |chain|
    ensures ChainSet(chain[i..]) == ChainSet(chain[i + 1..]) + {chain[i]}
    ensures i + 1 == |chain| ==> chain[..i + 1] == chain && ChainSet(chain[i + 1..]) == {}
  {
    assert chain[i..] == [chain[i]] + chain[i + 1..];
  }

  /** Chain member i, the last of those left, is moved after the members behind it. */
  lemma MemberMoved(b: BodyHeap, h: LinkHeap, c: CKHeap, h1: LinkHeap, c1: CKHeap, h2: LinkHeap, c2: CKHeap,
                    v: Move, i: nat, t': Tree, d': Tree)
    requires v.t.Node? && Ordered(b, v.t) && 0 < i < |v.t.chain| && v.t' == Node(v.t.chain[..i + 1], v.t.small, v.t.big)
    requires Ordered(b, v.t') && t' == TakeNode(b, v.t', v.t.chain[i], v.ctx.BigOf?)
    requires Moved(b, h, c, h1, c1, v, ChainSet(v.t.chain[i + 1..]))
    requires Moved(b, h1, c1, h2, c2, Move(v.src, v.dst, v.ctx, v.t', v.d', t', d'), {v.t.chain[i]})
    ensures Moved(b, h, c, h2, c2, v.(t' := t', d' := d'), ChainSet(v.t.chain[i..]))
    ensures t' == Node(v.t.chain[..i], v.t.small, v.t.big)
  {
    MovedTwice(b, h, c, h1, c1, h2, c2, v, Move(v.src, v.dst, v.ctx, v.t', v.d', t', d'), ChainSet(v.t.chain[i + 1..]),
      {v.t.chain[i]});
    ChainTail(v.t.chain, i);
    ChainCut(b, v.t, i);
  }

  ghost function MatchingSubtrees(b: BodyHeap, t: Tree, cb: nat, k: nat, val: nat): set<Ptr>
    requires t.Node?
  {
    Matching(b, Ptrs(t.small), cb, k, val) + Matching(b, Ptrs(t.big), cb, k, val)
  }

  lemma PartsDecide(b: BodyHeap, t: Tree)
    requires t.Node? && Ordered(b, t) && SubhashDecides(b, Ptrs(t))
    ensures
      && |t.chain| > 0 && SubhashDecides(b, ChainSet(t.chain)) && SubhashDecides(b, Ptrs(t.small))
      && SubhashDecides(b, Ptrs(t.big))
  {
  }

  /** The matching elements below the root of a node: in its subtrees and behind it in its chain. */
  ghost function MatchingBelow(b: BodyHeap, t: Tree, cb: nat, k: nat, val: nat): set<Ptr>
    requires t.Node? && |t.chain| > 0 && t.chain[0] in b
  {
    MatchingRest(b, t.chain[0], t.chain[1..], cb, k, val) + MatchingSubtrees(b, t, cb, k, val)
  }

  lemma MatchingNode(b: BodyHeap, t: Tree, cb: nat, k: nat, val: nat)
    requires t.Node? && Ordered(b, t) && SubhashDecides(b, Ptrs(t)) && |t.chain| > 0 && t.chain[0] in b
    ensures Matches(b, t.chain[0], cb, k, val) ==>
      Matching(b, Ptrs(t), cb, k, val) == MatchingBelow(b, t, cb, k, val) + {t.chain[0]}
    ensures !Matches(b, t.chain[0], cb, k, val) ==> Matching(b, Ptrs(t), cb, k, val) == MatchingBelow(b, t, cb, k, val)
  {
    assert forall p | p in ChainSet(t.chain) :: p in b && b[p].subhash == b[t.chain[0]].subhash;
    ChainTail(t.chain, 0);
    assert t.chain[0..] == t.chain;
    assert t.chain[0] in ChainSet(t.chain);
  }
}
