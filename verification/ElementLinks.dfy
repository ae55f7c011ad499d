/**
 How the links of the ELEMENTs spell out a tree, and what each group of link writes
 in K2HShm::InsertElement and K2HShm::TakeOffElement does to it.
 */
module ElementLinks {
  import opened Layout
  import opened ElementTree

  /** The four link members of an ELEMENT. */
  datatype Links = Links(small: Ptr, big: Ptr, parent: Ptr, same: Ptr)

  type LinkHeap = map<Ptr, Links>

  /** The chain's members follow each other through `same`. */
  ghost predicate SameLinked(h: LinkHeap, chain: seq<Ptr>)
  {
    && |chain| > 0
    && (forall i | 0 <= i < |chain| :: chain[i] in h)
    && (forall i | 0 <= i < |chain| :: h[chain[i]].same == (if i + 1 < |chain| then chain[i + 1] else NULL))
  }

  /** The chain's head hangs below `parent`; later members hang below their predecessor and have no subtrees. */
  ghost predicate ChainLinked(h: LinkHeap, chain: seq<Ptr>, parent: Ptr)
  {
    && SameLinked(h, chain)
    && (forall i | 0 < i < |chain| ::
          h[chain[i]].parent == chain[i - 1] && h[chain[i]].small == NULL && h[chain[i]].big == NULL)
    && h[chain[0]].parent == parent
  }

  ghost predicate Linked(h: LinkHeap, parent: Ptr, t: Tree)
    decreases t
  {
    match t
    case Nil => true
    case Node(chain, small, big) =>
      var linked :=
        && ChainLinked(h, chain, parent)
        && h[chain[0]].small == RootPtr(small)
        && h[chain[0]].big == RootPtr(big)
        && Linked(h, chain[0], small)
        && Linked(h, chain[0], big);
      linked
  }

  /** The links around the hole, whose content is reached through `hole`. */
  ghost predicate CtxLinked(h: LinkHeap, ctx: Ctx, hole: Ptr)
  {
    match ctx
    case Top => true
    case SmallOf(chain, big, up) =>
      && ChainLinked(h, chain, HoleParent(up))
      && h[chain[0]].small == hole
      && h[chain[0]].big == RootPtr(big)
      && Linked(h, chain[0], big)
      && CtxLinked(h, up, chain[0])
    case BigOf(chain, small, up) =>
      && ChainLinked(h, chain, HoleParent(up))
      && h[chain[0]].big == hole
      && h[chain[0]].small == RootPtr(small)
      && Linked(h, chain[0], small)
      && CtxLinked(h, up, chain[0])
  }

  /** Links of a plugged tree, split into the part around the hole and the part in it. */
  lemma {:induction false} PlugLinked(h: LinkHeap, ctx: Ctx, t: Tree)
    ensures Linked(h, NULL, Plug(ctx, t)) <==> CtxLinked(h, ctx, RootPtr(t)) && Linked(h, HoleParent(ctx), t)
  {
    match ctx
    case Top =>
    case SmallOf(chain, big, up) => PlugLinked(h, up, Node(chain, t, big));
    case BigOf(chain, small, up) => PlugLinked(h, up, Node(chain, small, t));
  }

  lemma ChainFrame(h: LinkHeap, h': LinkHeap, chain: seq<Ptr>, parent: Ptr)
    requires ChainLinked(h, chain, parent)
    requires forall p | p in ChainSet(chain) :: p in h' && h'[p] == h[p]
    ensures ChainLinked(h', chain, parent)
  {
    forall i | 0 <= i < |chain|
      ensures chain[i] in h' && h'[chain[i]] == h[chain[i]]
    {
      assert chain[i] in ChainSet(chain);
    }
  }

  lemma {:induction false} LinkedIn(h: LinkHeap, parent: Ptr, t: Tree)
    requires Linked(h, parent, t)
    ensures forall p | p in Ptrs(t) :: p in h
    decreases t
  {
    match t
    case Nil =>
    case Node(chain, small, big) =>
      LinkedIn(h, chain[0], small);
      LinkedIn(h, chain[0], big);
  }

  lemma {:induction false} ReachedIn(h: LinkHeap, t: Tree)
    requires Reached(h, t)
    ensures forall p | p in Ptrs(t) :: p in h
  {
    match t
    case Nil =>
    case Node(chain, small, big) =>
      ReachedIn(h, small);
      ReachedIn(h, big);
  }

  /** Links depend only on the entries of the tree's own elements. */
  lemma {:induction false} LinkedFrame(h: LinkHeap, h': LinkHeap, parent: Ptr, t: Tree)
    requires Linked(h, parent, t)
    requires forall p | p in Ptrs(t) :: p in h' && (p in h ==> h'[p] == h[p])
    ensures Linked(h', parent, t)
    decreases t
  {
    match t
    case Nil =>
    case Node(chain, small, big) =>
      LinkedIn(h, parent, t);
      ChainFrame(h, h', chain, parent);
      LinkedFrame(h, h', chain[0], small);
      LinkedFrame(h, h', chain[0], big);
  }

  lemma {:induction false} CtxLinkedIn(h: LinkHeap, ctx: Ctx, hole: Ptr)
    requires CtxLinked(h, ctx, hole)
    ensures forall p | p in CtxPtrs(ctx) :: p in h
  {
    match ctx
    case Top =>
    case SmallOf(chain, big, up) =>
      LinkedIn(h, chain[0], big);
      CtxLinkedIn(h, up, chain[0]);
    case BigOf(chain, small, up) =>
      LinkedIn(h, chain[0], small);
      CtxLinkedIn(h, up, chain[0]);
  }

  lemma {:induction false} CtxLinkedFrame(h: LinkHeap, h': LinkHeap, ctx: Ctx, hole: Ptr)
    requires CtxLinked(h, ctx, hole)
    requires forall p | p in CtxPtrs(ctx) :: p in h' && (p in h ==> h'[p] == h[p])
    ensures CtxLinked(h', ctx, hole)
  {
    CtxLinkedIn(h, ctx, hole);
    match ctx
    case Top =>
    case SmallOf(chain, big, up) =>
      ChainFrame(h, h', chain, HoleParent(up));
      LinkedFrame(h, h', chain[0], big);
      CtxLinkedFrame(h, h', up, chain[0]);
    case BigOf(chain, small, up) =>
      ChainFrame(h, h', chain, HoleParent(up));
      LinkedFrame(h, h', chain[0], small);
      CtxLinkedFrame(h, h', up, chain[0]);
  }

  /** Writing the head's parent, small and big leaves the rest of its chain linked. */
  lemma HeadRewritten(h: LinkHeap, chain: seq<Ptr>, parent: Ptr, small: Ptr, big: Ptr, newParent: Ptr)
    requires ChainLinked(h, chain, parent)
    requires Distinct(chain)
    ensures ChainLinked(h[chain[0] := Links(small, big, newParent, h[chain[0]].same)], chain, newParent)
  {
  }

  /** A tree whose root is told of a new parent is linked below that parent. */
  lemma Reparented(b: BodyHeap, h: LinkHeap, parent: Ptr, t: Tree, newParent: Ptr)
    requires Ordered(b, t) && Linked(h, parent, t) && t.Node?
    ensures Linked(h[RootPtr(t) := h[RootPtr(t)].(parent := newParent)], newParent, t)
  {
    var r := t.chain[0];
    var h' := h[r := h[r].(parent := newParent)];
    HeadRewritten(h, t.chain, parent, h[r].small, h[r].big, newParent);
    LinkedIn(h, parent, t);
    LinkedFrame(h, h', r, t.small);
    LinkedFrame(h, h', r, t.big);
  }

  /** What a link write into the hole does: the field that points at the hole, if any, points at x. */
  function FillHole(h: LinkHeap, ctx: Ctx, x: Ptr): LinkHeap
    requires ctx.Top? || (|ctx.chain| > 0 && ctx.chain[0] in h)
  {
    match ctx
    case Top => h
    case SmallOf(chain, _, _) => h[chain[0] := h[chain[0]].(small := x)]
    case BigOf(chain, _, _) => h[chain[0] := h[chain[0]].(big := x)]
  }

  lemma HoleFilled(b: BodyHeap, h: LinkHeap, ctx: Ctx, hole: Ptr, x: Ptr)
    requires CtxOrdered(b, ctx) && CtxLinked(h, ctx, hole)
    ensures CtxLinked(FillHole(h, ctx, x), ctx, x)
  {
    var h' := FillHole(h, ctx, x);
    CtxLinkedIn(h, ctx, hole);
    match ctx
    case Top =>
    case SmallOf(chain, big, up) =>
      var r := chain[0];
      HeadRewritten(h, chain, HoleParent(up), x, h[r].big, HoleParent(up));
      LinkedFrame(h, h', r, big);
      RangeDisjoint(b, up, ChainSet(chain) + Ptrs(big));
      CtxLinkedFrame(h, h', up, r);
    case BigOf(chain, small, up) =>
      var r := chain[0];
      HeadRewritten(h, chain, HoleParent(up), h[r].small, x, HoleParent(up));
      LinkedFrame(h, h', r, small);
      RangeDisjoint(b, up, ChainSet(chain) + Ptrs(small));
      CtxLinkedFrame(h, h', up, r);
  }

  /** Links without the parent members: every element is still reached from the root in its place. */
  ghost predicate Reached(h: LinkHeap, t: Tree)
  {
    match t
    case Nil => true
    case Node(chain, small, big) =>
      && SameLinked(h, chain)
      && h[chain[0]].small == RootPtr(small)
      && h[chain[0]].big == RootPtr(big)
      && Reached(h, small)
      && Reached(h, big)
  }

  lemma {:induction false} LinkedReached(h: LinkHeap, parent: Ptr, t: Tree)
    requires Linked(h, parent, t)
    ensures Reached(h, t)
    decreases t
  {
    match t
    case Nil =>
    case Node(chain, small, big) =>
      LinkedReached(h, chain[0], small);
      LinkedReached(h, chain[0], big);
  }

  lemma {:induction false} PlugReached(h: LinkHeap, ctx: Ctx, t: Tree)
    requires CtxLinked(h, ctx, RootPtr(t)) && Reached(h, t)
    ensures Reached(h, Plug(ctx, t))
  {
    match ctx
    case Top =>
    case SmallOf(chain, big, up) =>
      LinkedReached(h, chain[0], big);
      PlugReached(h, up, Node(chain, t, big));
    case BigOf(chain, small, up) =>
      LinkedReached(h, chain[0], small);
      PlugReached(h, up, Node(chain, small, t));
  }

  // ---------------------------------------------------------------- link writes

  /** The hole's link and the root's parent member are set: o is now linked in the hole. */
  function Hung(h: LinkHeap, ctx: Ctx, o: Tree): LinkHeap
    requires ctx.Top? || (|ctx.chain| > 0 && ctx.chain[0] in h)
    requires RootPtr(o) in h
  {
    FillHole(h, ctx, RootPtr(o))[RootPtr(o) := h[RootPtr(o)].(parent := HoleParent(ctx))]
  }

  lemma HungInHole(b: BodyHeap, h: LinkHeap, ctx: Ctx, hole: Ptr, o: Tree, oldParent: Ptr)
    requires CtxOrdered(b, ctx) && CtxLinked(h, ctx, hole)
    requires o.Node? && Ordered(b, o) && Linked(h, oldParent, o)
    requires Ptrs(o) !! CtxPtrs(ctx)
    ensures ctx.Top? || (|ctx.chain| > 0 && ctx.chain[0] in h && ctx.chain[0] != RootPtr(o))
    ensures RootPtr(o) in h
    ensures Linked(Hung(h, ctx, o), NULL, Plug(ctx, o))
  {
    var e := RootPtr(o);
    assert e in Ptrs(o);
    LinkedIn(h, oldParent, o);
    CtxLinkedIn(h, ctx, hole);
    assert !ctx.Top? ==> ctx.chain[0] in ChainSet(ctx.chain) && ctx.chain[0] in CtxPtrs(ctx);
    var h1 := FillHole(h, ctx, e);
    HoleFilled(b, h, ctx, hole, e);
    LinkedFrame(h, h1, oldParent, o);
    Reparented(b, h1, oldParent, o, HoleParent(ctx));
    var h2 := Hung(h, ctx, o);
    assert h2 == h1[e := h1[e].(parent := HoleParent(ctx))];
    CtxLinkedFrame(h1, h2, ctx, e);
    PlugLinked(h2, ctx, o);
  }

  /** The hole's link is cleared: nothing is linked in the hole. */
  lemma ClearedHole(b: BodyHeap, h: LinkHeap, ctx: Ctx, hole: Ptr)
    requires CtxOrdered(b, ctx) && CtxLinked(h, ctx, hole)
    ensures ctx.Top? || (|ctx.chain| > 0 && ctx.chain[0] in h)
    ensures Linked(FillHole(h, ctx, NULL), NULL, Plug(ctx, Nil))
  {
    HoleFilled(b, h, ctx, hole, NULL);
    PlugLinked(FillHole(h, ctx, NULL), ctx, Nil);
  }

  lemma ChainsJoined(h: LinkHeap, h': LinkHeap, c1: seq<Ptr>, c2: seq<Ptr>, parent: Ptr, oldParent: Ptr)
    requires ChainLinked(h, c1, parent) && ChainLinked(h, c2, oldParent)
    requires Distinct(c1) && Distinct(c2) && ChainSet(c1) !! ChainSet(c2)
    requires h[c2[0]].small == NULL && h[c2[0]].big == NULL
    requires h' == h[c1[|c1| - 1] := h[c1[|c1| - 1]].(same := c2[0])][c2[0] := h[c2[0]].(parent := c1[|c1| - 1])]
    ensures ChainLinked(h', c1 + c2, parent)
  {
    var c, last := c1 + c2, |c1| - 1;
    forall i | 0 <= i < |c1|
      ensures c1[i] in h' && h'[c1[i]] == if i == last then h[c1[i]].(same := c2[0]) else h[c1[i]]
    {
      assert c1[i] in ChainSet(c1) && c2[0] in ChainSet(c2);
    }
    forall i | 0 <= i < |c2|
      ensures c2[i] in h' && h'[c2[i]] == if i == 0 then h[c2[i]].(parent := c1[last]) else h[c2[i]]
    {
      assert c2[i] in ChainSet(c2) && c1[last] in ChainSet(c1);
    }
    forall i | 0 <= i < |c|
      ensures c[i] in h' && h'[c[i]].same == if i + 1 < |c| then c[i + 1] else NULL
      ensures 0 < i ==> h'[c[i]].parent == c[i - 1] && h'[c[i]].small == NULL && h'[c[i]].big == NULL
    {
      if i < |c1| {
        SameAt(h, c1, i);
        assert c[i] == c1[i] && (i < last ==> c[i + 1] == c1[i + 1]) && (0 < i ==> c[i - 1] == c1[i - 1]);
      } else {
        var j := i - |c1|;
        SameAt(h, c2, j);
        assert c[i] == c2[j] && (j + 1 < |c2| ==> c[i + 1] == c2[j + 1]) && (0 < j ==> c[i - 1] == c2[j - 1]);
      }
    }
    assert c[0] == c1[0] && SameLinked(h', c);
  }

  lemma SameAt(h: LinkHeap, chain: seq<Ptr>, i: nat)
    requires SameLinked(h, chain) && i < |chain|
    ensures chain[i] in h
    ensures h[chain[i]].same == if i + 1 < |chain| then chain[i + 1] else NULL
  {
  }

  lemma ChainShortened(h: LinkHeap, h': LinkHeap, chain: seq<Ptr>, parent: Ptr, i: nat)
    requires ChainLinked(h, chain, parent) && Distinct(chain)
    requires 0 < i < |chain|
    requires forall j | 0 <= j < |chain| && j != i ::
      chain[j] in h' && h'[chain[j]] ==
        if j == i - 1 then h[chain[j]].(same := h[chain[i]].same)
        else if j == i + 1 then h[chain[j]].(parent := chain[i - 1])
        else h[chain[j]]
    ensures ChainLinked(h', chain[..i] + chain[i + 1..], parent)
  {
    var c := chain[..i] + chain[i + 1..];
    assert c[0] == chain[0];
    forall j | 0 <= j < |c|
      ensures c[j] in h' && h'[c[j]].same == if j + 1 < |c| then c[j + 1] else NULL
      ensures 0 < j ==> h'[c[j]].parent == c[j - 1] && h'[c[j]].small == NULL && h'[c[j]].big == NULL
    {
      var k := if j < i then j else j + 1;
      assert c[j] == chain[k];
      if j == i - 1 {
        SameAt(h, chain, i);
        assert h'[chain[k]].same == h[chain[i]].same;
      } else {
        SameAt(h, chain, k);
        assert h'[chain[k]].same == h[chain[k]].same;
      }
    }
    assert SameLinked(h', c);
    assert h'[chain[0]].parent == h[chain[0]].parent;
  }

  /** What links need when only members of the node's own chain are rewritten. */
  lemma ChainRewritten(b: BodyHeap, h: LinkHeap, h': LinkHeap, ctx: Ctx, t: Tree, chain: seq<Ptr>)
    requires t.Node? && Ordered(b, Plug(ctx, t)) && Linked(h, NULL, Plug(ctx, t))
    requires forall p | p in Ptrs(Plug(ctx, t)) && p !in t.chain :: p in h' && (p in h ==> h'[p] == h[p])
    requires ChainLinked(h', chain, HoleParent(ctx)) && chain[0] == RootPtr(t)
    requires RootPtr(t) in h && h'[chain[0]].small == h[chain[0]].small && h'[chain[0]].big == h[chain[0]].big
    ensures Linked(h', NULL, Plug(ctx, Node(chain, t.small, t.big)))
  {
    PlugOrdered(b, ctx, t);
    PlugLinked(h, ctx, t);
    PlugPtrs(ctx, t);
    RangeDisjoint(b, ctx, Ptrs(t));
    NodeDisjoint(b, t);
    LinkedFrame(h, h', chain[0], t.small);
    LinkedFrame(h, h', chain[0], t.big);
    CtxLinkedFrame(h, h', ctx, chain[0]);
    PlugLinked(h', ctx, Node(chain, t.small, t.big));
  }

  /** A chain o is linked behind the last member of the chain of t. */
  lemma ChainExtended(b: BodyHeap, h: LinkHeap, ctx: Ctx, t: Tree, o: Tree, oldParent: Ptr)
    requires t.Node? && Ordered(b, Plug(ctx, t)) && Linked(h, NULL, Plug(ctx, t))
    requires o.Node? && o.small.Nil? && o.big.Nil? && Ordered(b, o) && Linked(h, oldParent, o)
    requires Ptrs(o) !! Ptrs(Plug(ctx, t))
    ensures |t.chain| > 0 && t.chain[|t.chain| - 1] in h && RootPtr(o) in h && t.chain[|t.chain| - 1] != RootPtr(o)
    ensures
      var last := t.chain[|t.chain| - 1];
      var h' := h[last := h[last].(same := RootPtr(o))][RootPtr(o) := h[RootPtr(o)].(parent := last)];
      Linked(h', NULL, Plug(ctx, Node(t.chain + o.chain, t.small, t.big)))
  {
    PlugOrdered(b, ctx, t);
    PlugLinked(h, ctx, t);
    PlugPtrs(ctx, t);
    var last, e := t.chain[|t.chain| - 1], o.chain[0];
    assert last in ChainSet(t.chain) && e in ChainSet(o.chain);
    var h' := h[last := h[last].(same := e)][e := h[e].(parent := last)];
    ChainsJoined(h, h', t.chain, o.chain, HoleParent(ctx), oldParent);
    LinkedIn(h, NULL, Plug(ctx, t));
    assert t.chain[0] in ChainSet(t.chain);
    ChainRewritten(b, h, h', ctx, t, t.chain + o.chain);
  }

  /** Chain member i > 0 is bypassed by its predecessor and its successor. */
  lemma ChainBypassed(b: BodyHeap, h: LinkHeap, h': LinkHeap, ctx: Ctx, t: Tree, i: nat)
    requires t.Node? && Ordered(b, Plug(ctx, t)) && Linked(h, NULL, Plug(ctx, t))
    requires 0 < i < |t.chain|
    requires forall p | p in Ptrs(Plug(ctx, t)) && p !in t.chain :: p in h' && (p in h ==> h'[p] == h[p])
    requires forall j | 0 <= j < |t.chain| :: t.chain[j] in h
    requires forall j | 0 <= j < |t.chain| && j != i ::
      t.chain[j] in h' && h'[t.chain[j]] ==
        if j == i - 1 then h[t.chain[j]].(same := h[t.chain[i]].same)
        else if j == i + 1 then h[t.chain[j]].(parent := t.chain[i - 1])
        else h[t.chain[j]]
    ensures Linked(h', NULL, Plug(ctx, Node(Without(t.chain, t.chain[i]), t.small, t.big)))
  {
    PlugOrdered(b, ctx, t);
    PlugLinked(h, ctx, t);
    WithoutAt(t.chain, i);
    ChainShortened(h, h', t.chain, HoleParent(ctx), i);
    ChainRewritten(b, h, h', ctx, t, t.chain[..i] + t.chain[i + 1..]);
  }

  lemma SameLinkedFrame(h: LinkHeap, h': LinkHeap, chain: seq<Ptr>)
    requires SameLinked(h, chain)
    requires forall p | p in ChainSet(chain) :: p in h' && (p in h ==> h'[p] == h[p])
    ensures SameLinked(h', chain)
  {
    forall i | 0 <= i < |chain|
      ensures chain[i] in h' && h'[chain[i]] == h[chain[i]]
    {
      assert chain[i] in ChainSet(chain);
    }
  }

  lemma {:induction false} ReachedFrame(h: LinkHeap, h': LinkHeap, t: Tree)
    requires Reached(h, t)
    requires forall p | p in Ptrs(t) :: p in h' && (p in h ==> h'[p] == h[p])
    ensures Reached(h', t)
  {
    match t
    case Nil =>
    case Node(chain, small, big) =>
      SameLinkedFrame(h, h', chain);
      assert chain[0] in ChainSet(chain);
      ReachedFrame(h, h', small);
      ReachedFrame(h, h', big);
  }

  /** The links after the head of a longer chain made way for its successor, which takes over its subtrees. */
  function Succeeded(h: LinkHeap, ctx: Ctx, t: Tree): LinkHeap
    requires t.Node? && |t.chain| > 1 && t.chain[0] in h && t.chain[1] in h
    requires ctx.Top? || (|ctx.chain| > 0 && ctx.chain[0] in h)
  {
    FillHole(h, ctx, t.chain[1])
      [t.chain[1] := Links(h[t.chain[0]].small, h[t.chain[0]].big, h[t.chain[0]].parent, h[t.chain[1]].same)]
  }

  /** The pointers around a node, none of which is one of its own. */
  lemma AroundNode(b: BodyHeap, h: LinkHeap, ctx: Ctx, t: Tree)
    requires t.Node? && Ordered(b, Plug(ctx, t)) && Linked(h, NULL, Plug(ctx, t))
    ensures CtxOrdered(b, ctx) && Ordered(b, t)
    ensures CtxLinked(h, ctx, RootPtr(t)) && Linked(h, HoleParent(ctx), t)
    ensures Ptrs(t) !! CtxPtrs(ctx)
    ensures
      || ctx.Top? || (|ctx.chain| > 0 && ctx.chain[0] in h && ctx.chain[0] in CtxPtrs(ctx) && ctx.chain[0] !in t.chain)
    ensures forall i | 0 <= i < |t.chain| :: t.chain[i] in h && t.chain[i] in Ptrs(t)
  {
    PlugOrdered(b, ctx, t);
    PlugLinked(h, ctx, t);
    RangeDisjoint(b, ctx, Ptrs(t));
    CtxLinkedIn(h, ctx, t.chain[0]);
    assert !ctx.Top? ==> ctx.chain[0] in ChainSet(ctx.chain) && ctx.chain[0] in CtxPtrs(ctx);
    assert forall i | 0 <= i < |t.chain| :: t.chain[i] in ChainSet(t.chain) && t.chain[i] in Ptrs(t);
  }

  lemma SucceededLinks(b: BodyHeap, h: LinkHeap, ctx: Ctx, t: Tree)
    requires t.Node? && |t.chain| > 1
    requires Ordered(b, Plug(ctx, t)) && Linked(h, NULL, Plug(ctx, t))
    ensures ctx.Top? || (|ctx.chain| > 0 && ctx.chain[0] in h)
    ensures t.chain[0] in h && t.chain[1] in h
    ensures
      var h' := Succeeded(h, ctx, t);
      && CtxLinked(h', ctx, t.chain[1])
      && ChainLinked(h', t.chain[1..], HoleParent(ctx))
      && h'[t.chain[1]].small == RootPtr(t.small) && h'[t.chain[1]].big == RootPtr(t.big)
      && Linked(h', t.chain[0], t.small) && Linked(h', t.chain[0], t.big)
  {
    AroundNode(b, h, ctx, t);
    var e, child := t.chain[0], t.chain[1];
    var h1, h2 := FillHole(h, ctx, child), Succeeded(h, ctx, t);
    assert CtxLinked(h2, ctx, child) by {
      HoleFilled(b, h, ctx, e, child);
      CtxLinkedIn(h1, ctx, child);
      CtxLinkedFrame(h1, h2, ctx, child);
    }
    SucceededBelow(b, h, ctx, t);
    assert ChainLinked(h2, t.chain[1..], HoleParent(ctx)) by {
      SuccessorLinked(h, h2, t.chain, HoleParent(ctx));
    }
  }

  /** What hangs below the removed head keeps its links. */
  lemma SucceededBelow(b: BodyHeap, h: LinkHeap, ctx: Ctx, t: Tree)
    requires t.Node? && |t.chain| > 1
    requires Ordered(b, Plug(ctx, t)) && Linked(h, NULL, Plug(ctx, t))
    ensures ctx.Top? || (|ctx.chain| > 0 && ctx.chain[0] in h)
    ensures t.chain[0] in h && t.chain[1] in h
    ensures
      var h' := Succeeded(h, ctx, t);
      && (forall p | p in Ptrs(t) && p != t.chain[1] :: p in h' && p in h && h'[p] == h[p])
      && Linked(h', t.chain[0], t.small) && Linked(h', t.chain[0], t.big)
  {
    AroundNode(b, h, ctx, t);
    var e, child := t.chain[0], t.chain[1];
    var h2 := Succeeded(h, ctx, t);
    LinkedIn(h, HoleParent(ctx), t);
    assert forall p | p in Ptrs(t) && p != child :: p in h2 && h2[p] == h[p];
    NodeDisjoint(b, t);
    assert child in ChainSet(t.chain);
    LinkedFrame(h, h2, e, t.small);
    LinkedFrame(h, h2, e, t.big);
  }

  lemma RootParent(h: LinkHeap, parent: Ptr, t: Tree)
    requires t.Node? && Linked(h, parent, t)
    ensures RootPtr(t) in h && h[RootPtr(t)].parent == parent
  {
  }

  /**
   After a head with a successor is taken off everything stays reachable, and the
   links are whole again exactly when the head had no subtree: the parent members
   of its subtrees still name the removed head.
   */
  lemma HeadSucceeded(b: BodyHeap, h: LinkHeap, ctx: Ctx, t: Tree)
    requires t.Node? && |t.chain| > 1
    requires Ordered(b, Plug(ctx, t)) && Linked(h, NULL, Plug(ctx, t))
    ensures ctx.Top? || (|ctx.chain| > 0 && ctx.chain[0] in h)
    ensures t.chain[0] in h && t.chain[1] in h
    ensures
      var h', t' := Succeeded(h, ctx, t), Plug(ctx, Node(t.chain[1..], t.small, t.big));
      Reached(h', t') && (Linked(h', NULL, t') <==> t.small.Nil? && t.big.Nil?)
  {
    SucceededLinks(b, h, ctx, t);
    PlugOrdered(b, ctx, t);
    var h', e := Succeeded(h, ctx, t), t.chain[0];
    var n := Node(t.chain[1..], t.small, t.big);
    LinkedReached(h', e, t.small);
    LinkedReached(h', e, t.big);
    PlugReached(h', ctx, n);
    PlugLinked(h', ctx, n);
    if t.small.Node? {
      RootParent(h', e, t.small);
    }
    if t.big.Node? {
      RootParent(h', e, t.big);
    }
  }

  lemma SuccessorLinked(h: LinkHeap, h': LinkHeap, chain: seq<Ptr>, parent: Ptr)
    requires ChainLinked(h, chain, parent) && Distinct(chain) && |chain| > 1
    requires forall i | 0 < i < |chain| ::
      chain[i] in h' && h'[chain[i]] ==
        if i == 1 then Links(h[chain[0]].small, h[chain[0]].big, h[chain[0]].parent, h[chain[1]].same) else h[chain[i]]
    ensures ChainLinked(h', chain[1..], parent)
  {
    var rest := chain[1..];
    forall i | 0 <= i < |rest|
      ensures rest[i] in h' && h'[rest[i]].same == if i + 1 < |rest| then rest[i + 1] else NULL
    {
      SameAt(h, chain, i + 1);
      assert rest[i] == chain[i + 1];
    }
    assert SameLinked(h', rest);
    assert rest[0] == chain[1];
  }

  /** h' has the keys of h and differs from it only inside s. */
  ghost predicate SameOutside(h: LinkHeap, h': LinkHeap, s: set<Ptr>)
  {
    h'.Keys == h.Keys && forall p | p in h && p !in s :: h'[p] == h[p]
  }

  lemma SameOutsideWider(h: LinkHeap, h': LinkHeap, s: set<Ptr>, s': set<Ptr>)
    requires SameOutside(h, h', s) && s <= s'
    ensures SameOutside(h, h', s')
  {
  }

  // ---------------------------------------------------------------- one insertion step

  /** What InsertElement needs: o belongs in the subtree t at ctx, and shares no element with the whole tree. */
  ghost predicate Insertable(b: BodyHeap, h: LinkHeap, ctx: Ctx, t: Tree, o: Tree)
  {
    var insertable :=
      && t.Node? && Ordered(b, Plug(ctx, t)) && Linked(h, NULL, Plug(ctx, t)) && Ordered(b, t)
      && o.Node? && Ordered(b, o) && RootPtr(o) in h && Linked(h, h[RootPtr(o)].parent, o)
      && Fits(b, t, o) && InRange(b, ctx, Ptrs(o))
      && Ptrs(o) !! Ptrs(Plug(ctx, t));
    insertable
  }

  /** The root of t and the root of o, and the links between the root and its subtrees. */
  lemma InsertableRoots(b: BodyHeap, h: LinkHeap, ctx: Ctx, t: Tree, o: Tree)
    requires Insertable(b, h, ctx, t, o)
    ensures RootPtr(t) in b && RootPtr(t) in h && RootPtr(t) in Ptrs(t) && RootPtr(t) != NULL
    ensures h[RootPtr(t)].small == RootPtr(t.small) && h[RootPtr(t)].big == RootPtr(t.big)
    ensures t.small.Node? <==> h[RootPtr(t)].small != NULL
    ensures t.big.Node? <==> h[RootPtr(t)].big != NULL
    ensures RootPtr(o) in b && RootPtr(o) in Ptrs(o) && RootPtr(o) !in Ptrs(t) && RootPtr(o) != NULL
    ensures ChainLinked(h, t.chain, HoleParent(ctx))
  {
    PlugLinked(h, ctx, t);
    PlugPtrs(ctx, t);
    assert t.chain[0] in ChainSet(t.chain) && o.chain[0] in ChainSet(o.chain);
    RootNonNull(b, t.small);
    RootNonNull(b, t.big);
  }

  lemma DescendBig(b: BodyHeap, h: LinkHeap, ctx: Ctx, t: Tree, o: Tree)
    requires Insertable(b, h, ctx, t, o) && t.big.Node?
    requires b[t.chain[0]].subhash < b[o.chain[0]].subhash
    ensures Insertable(b, h, BigOf(t.chain, t.small, ctx), t.big, o)
    ensures Plug(BigOf(t.chain, t.small, ctx), InsertTree(b, t.big, o)) == Plug(ctx, InsertTree(b, t, o))
  {
  }

  lemma DescendSmall(b: BodyHeap, h: LinkHeap, ctx: Ctx, t: Tree, o: Tree)
    requires Insertable(b, h, ctx, t, o) && t.small.Node?
    requires b[o.chain[0]].subhash < b[t.chain[0]].subhash
    ensures Insertable(b, h, SmallOf(t.chain, t.big, ctx), t.small, o)
    ensures Plug(SmallOf(t.chain, t.big, ctx), InsertTree(b, t.small, o)) == Plug(ctx, InsertTree(b, t, o))
  {
  }

  /** Hanging o in an empty hole of the tree t0. */
  lemma HungInEmpty(b: BodyHeap, h: LinkHeap, inner: Ctx, o: Tree, oldParent: Ptr)
    requires Ordered(b, Plug(inner, Nil)) && Linked(h, NULL, Plug(inner, Nil))
    requires o.Node? && Ordered(b, o) && Linked(h, oldParent, o)
    requires Ptrs(o) !! Ptrs(Plug(inner, Nil))
    ensures inner.Top? || (|inner.chain| > 0 && inner.chain[0] in h)
    ensures RootPtr(o) in h
    ensures Linked(Hung(h, inner, o), NULL, Plug(inner, o))
  {
    PlugOrdered(b, inner, Nil);
    PlugLinked(h, inner, Nil);
    PlugPtrs(inner, Nil);
    HungInHole(b, h, inner, NULL, o, oldParent);
  }

  lemma HungBig(b: BodyHeap, h: LinkHeap, h': LinkHeap, ctx: Ctx, t: Tree, o: Tree)
    requires Insertable(b, h, ctx, t, o) && t.big.Nil?
    requires b[t.chain[0]].subhash < b[o.chain[0]].subhash
    requires t.chain[0] in h
    requires h' ==
      h[t.chain[0] := h[t.chain[0]].(big := o.chain[0])][o.chain[0] := h[o.chain[0]].(parent := t.chain[0])]
    ensures Linked(h', NULL, Plug(ctx, InsertTree(b, t, o)))
    ensures SameOutside(h, h', Ptrs(t) + {RootPtr(o)})
  {
    var inner := BigOf(t.chain, t.small, ctx);
    assert Plug(inner, Nil) == Plug(ctx, t);
    HungInEmpty(b, h, inner, o, h[RootPtr(o)].parent);
    assert h' == Hung(h, inner, o);
    assert Plug(inner, o) == Plug(ctx, InsertTree(b, t, o));
  }

  lemma HungSmall(b: BodyHeap, h: LinkHeap, h': LinkHeap, ctx: Ctx, t: Tree, o: Tree)
    requires Insertable(b, h, ctx, t, o) && t.small.Nil?
    requires b[o.chain[0]].subhash < b[t.chain[0]].subhash
    requires t.chain[0] in h
    requires h' ==
      h[t.chain[0] := h[t.chain[0]].(small := o.chain[0])][o.chain[0] := h[o.chain[0]].(parent := t.chain[0])]
    ensures Linked(h', NULL, Plug(ctx, InsertTree(b, t, o)))
    ensures SameOutside(h, h', Ptrs(t) + {RootPtr(o)})
  {
    var inner := SmallOf(t.chain, t.big, ctx);
    assert Plug(inner, Nil) == Plug(ctx, t);
    HungInEmpty(b, h, inner, o, h[RootPtr(o)].parent);
    assert h' == Hung(h, inner, o);
    assert Plug(inner, o) == Plug(ctx, InsertTree(b, t, o));
  }

  lemma HungBehind(b: BodyHeap, h: LinkHeap, h': LinkHeap, ctx: Ctx, t: Tree, o: Tree, last: Ptr)
    requires Insertable(b, h, ctx, t, o)
    requires b[t.chain[0]].subhash == b[o.chain[0]].subhash
    requires last == t.chain[|t.chain| - 1] && last in h
    requires h' == h[last := h[last].(same := o.chain[0])][o.chain[0] := h[o.chain[0]].(parent := last)]
    ensures last in Ptrs(t)
    ensures Linked(h', NULL, Plug(ctx, InsertTree(b, t, o)))
    ensures SameOutside(h, h', Ptrs(t) + {RootPtr(o)})
  {
    assert last in ChainSet(t.chain);
    ChainExtended(b, h, ctx, t, o, h[RootPtr(o)].parent);
    assert InsertTree(b, t, o) == Node(t.chain + o.chain, t.small, t.big);
  }

  // ---------------------------------------------------------------- one removal step

  /** What TakeOffElement needs: e is in the chain of the subtree t at ctx. */
  ghost predicate Takeable(b: BodyHeap, h: LinkHeap, ctx: Ctx, t: Tree, e: Ptr)
  {
    t.Node? && e in t.chain && Ordered(b, t) && Ordered(b, Plug(ctx, t)) && Linked(h, NULL, Plug(ctx, t))
  }

  /** The link of `parent` that names e names x instead. */
  function Relinked(h: LinkHeap, parent: Ptr, e: Ptr, x: Ptr): LinkHeap
  {
    if parent !in h then h
    else if h[parent].small == e then h[parent := h[parent].(small := x)]
    else if h[parent].big == e then h[parent := h[parent].(big := x)]
    else if h[parent].same == e then h[parent := h[parent].(same := x)]
    else h
  }

  /**
   The element is a chain head with subtrees and with a successor: when it is taken off, the
   parent members of its subtrees keep naming it.
   */
  predicate Stranding(l: Links)
  {
    l.same != NULL && (l.small != NULL || l.big != NULL)
  }

  const CLEARED := Links(NULL, NULL, NULL, NULL)

  lemma PlugRoot(ctx: Ctx, t: Tree, t': Tree)
    requires !ctx.Top?
    ensures RootPtr(Plug(ctx, t)) == RootPtr(Plug(ctx, t'))
  {
    match ctx
    case SmallOf(chain, big, up) =>
      if !up.Top? {
        PlugRoot(up, Node(chain, t, big), Node(chain, t', big));
      }
    case BigOf(chain, small, up) =>
      if !up.Top? {
        PlugRoot(up, Node(chain, small, t), Node(chain, small, t'));
      }
  }

  /** The root of the whole tree after chain member i of the subtree at ctx is gone. */
  lemma RootWithout(ctx: Ctx, t: Tree, i: nat)
    requires t.Node? && |t.chain| > 1 && i < |t.chain| && Distinct(t.chain)
    ensures
      var t' := Node(Without(t.chain, t.chain[i]), t.small, t.big);
      RootPtr(Plug(ctx, t')) == if ctx.Top? && i == 0 then t.chain[1] else RootPtr(Plug(ctx, t))
  {
    WithoutAt(t.chain, i);
    if !ctx.Top? {
      PlugRoot(ctx, t, Node(Without(t.chain, t.chain[i]), t.small, t.big));
    }
  }

  /** The links that name the head of a node's chain: the hole of ctx and nothing else of the parent. */
  lemma HeadNamed(b: BodyHeap, h: LinkHeap, ctx: Ctx, t: Tree, x: Ptr)
    requires t.Node? && |t.chain| > 0 && Takeable(b, h, ctx, t, t.chain[0])
    ensures t.chain[0] in h && h[t.chain[0]].parent == HoleParent(ctx)
    ensures ctx.Top? <==> HoleParent(ctx) == NULL
    ensures ctx.Top? || (|ctx.chain| > 0 && ctx.chain[0] in h)
    ensures HoleParent(ctx) in h || ctx.Top?
    ensures ctx.SmallOf? ==> h[HoleParent(ctx)].small == t.chain[0]
    ensures ctx.BigOf? ==> h[HoleParent(ctx)].big == t.chain[0] && h[HoleParent(ctx)].small != t.chain[0]
    ensures !ctx.Top? ==> Relinked(h, HoleParent(ctx), t.chain[0], x) == FillHole(h, ctx, x)
    ensures h[t.chain[0]].small == RootPtr(t.small) && h[t.chain[0]].big == RootPtr(t.big)
    ensures t.small.Node? <==> RootPtr(t.small) != NULL
    ensures t.big.Node? <==> RootPtr(t.big) != NULL
    ensures h[t.chain[0]].same == if |t.chain| > 1 then t.chain[1] else NULL
    ensures |t.chain| > 1 ==> t.chain[1] != NULL
  {
    AroundNode(b, h, ctx, t);
    RootNonNull(b, t.small);
    RootNonNull(b, t.big);
    SameAt(h, t.chain, 0);
    RootNonNull(b, t);
    if ctx.BigOf? {
      RootNonNull(b, ctx.small);
      assert ctx.small.Node? ==> RootPtr(ctx.small) in CtxPtrs(ctx);
    }
  }

  /** The links that name a later member of a chain: only `same` of its predecessor. */
  lemma MemberNamed(b: BodyHeap, h: LinkHeap, ctx: Ctx, t: Tree, i: nat, x: Ptr)
    requires t.Node? && 0 < i < |t.chain| && Takeable(b, h, ctx, t, t.chain[i])
    ensures t.chain[i] in h && t.chain[i - 1] in h && t.chain[i - 1] != NULL
    ensures h[t.chain[i - 1]].same == t.chain[i]
    ensures h[t.chain[i]] == Links(NULL, NULL, t.chain[i - 1], if i + 1 < |t.chain| then t.chain[i + 1] else NULL)
    ensures i + 1 < |t.chain| ==> t.chain[i + 1] in h && t.chain[i + 1] != NULL
    ensures Relinked(h, t.chain[i - 1], t.chain[i], x) == h[t.chain[i - 1] := h[t.chain[i - 1]].(same := x)]
  {
    AroundNode(b, h, ctx, t);
    SameAt(h, t.chain, i);
    SameAt(h, t.chain, i - 1);
    NodeDisjoint(b, t);
    assert t.chain[i] in ChainSet(t.chain);
    assert t.small.Node? ==> t.small.chain[0] in ChainSet(t.small.chain) && t.small.chain[0] in Ptrs(t.small);
    assert t.big.Node? ==> t.big.chain[0] in ChainSet(t.big.chain) && t.big.chain[0] in Ptrs(t.big);
    assert h[t.chain[i - 1]].small != t.chain[i] && h[t.chain[i - 1]].big != t.chain[i];
  }

  /** Clearing the links of an element outside the tree leaves the tree linked. */
  lemma ClearedOutside(h: LinkHeap, e: Ptr, parent: Ptr, t: Tree)
    requires Linked(h, parent, t) && e !in Ptrs(t)
    ensures Linked(h[e := CLEARED], parent, t)
  {
    LinkedIn(h, parent, t);
    LinkedFrame(h, h[e := CLEARED], parent, t);
  }

  lemma TakenPtrs(b: BodyHeap, h: LinkHeap, ctx: Ctx, t: Tree, e: Ptr, t': Tree)
    requires Takeable(b, h, ctx, t, e) && Ptrs(t') <= Ptrs(t) - {e}
    ensures Ptrs(Plug(ctx, t')) <= Ptrs(Plug(ctx, t)) - {e}
    ensures e in Ptrs(Plug(ctx, t))
  {
    AroundNode(b, h, ctx, t);
    PlugPtrs(ctx, t);
    PlugPtrs(ctx, t');
  }

  /** e, later in its chain, is gone. */
  lemma TookMember(b: BodyHeap, h: LinkHeap, h': LinkHeap, ctx: Ctx, t: Tree, i: nat)
    requires t.Node? && 0 < i < |t.chain| && Takeable(b, h, ctx, t, t.chain[i])
    requires t.chain[i] in h && t.chain[i - 1] in h && (i + 1 < |t.chain| ==> t.chain[i + 1] in h)
    requires
      var h1 := h[t.chain[i - 1] := h[t.chain[i - 1]].(same := h[t.chain[i]].same)];
      var h2 := if i + 1 < |t.chain| then h1[t.chain[i + 1] := h[t.chain[i + 1]].(parent := t.chain[i - 1])] else h1;
      h' == h2[t.chain[i] := CLEARED]
    ensures Linked(h', NULL, Plug(ctx, Node(Without(t.chain, t.chain[i]), t.small, t.big)))
  {
    AroundNode(b, h, ctx, t);
    LinkedIn(h, NULL, Plug(ctx, t));
    assert forall p | p in Ptrs(Plug(ctx, t)) && p !in t.chain :: p in h' && h'[p] == h[p];
    ChainBypassed(b, h, h', ctx, t, i);
  }

  /** e, the head of a longer chain, is gone. */
  lemma TookHead(b: BodyHeap, h: LinkHeap, ctx: Ctx, t: Tree)
    requires t.Node? && |t.chain| > 1 && Takeable(b, h, ctx, t, t.chain[0])
    ensures t.chain[0] in h && t.chain[1] in h && (ctx.Top? || (|ctx.chain| > 0 && ctx.chain[0] in h))
    ensures
      var h', t' := Succeeded(h, ctx, t)[t.chain[0] := CLEARED], Plug(ctx,
        Node(Without(t.chain, t.chain[0]), t.small, t.big));
      Reached(h', t') && (Linked(h', NULL, t') <==> t.small.Nil? && t.big.Nil?)
  {
    HeadSucceeded(b, h, ctx, t);
    PlugOrdered(b, ctx, t);
    WithoutChain(b, t.chain, t.chain[0]);
    NodeDisjoint(b, t);
    var e, n := t.chain[0], Node(Without(t.chain, t.chain[0]), t.small, t.big);
    assert e in ChainSet(t.chain);
    TakenPtrs(b, h, ctx, t, e, n);
    var h1 := Succeeded(h, ctx, t);
    var h' := h1[e := CLEARED];
    ReachedIn(h1, Plug(ctx, n));
    ReachedFrame(h1, h', Plug(ctx, n));
    if Linked(h1, NULL, Plug(ctx, n)) {
      ClearedOutside(h1, e, NULL, Plug(ctx, n));
    }
    if Linked(h', NULL, Plug(ctx, n)) {
      LinkedFrame(h', h1, NULL, Plug(ctx, n));
    }
  }

  /** e, alone in its chain, is gone and the subtree r has its place. */
  lemma TookForSubtree(b: BodyHeap, h: LinkHeap, ctx: Ctx, t: Tree, e: Ptr, r: Tree)
    requires Takeable(b, h, ctx, t, e) && t.chain == [e]
    requires r.Node? && (r == t.small || r == t.big)
    ensures ctx.Top? || (|ctx.chain| > 0 && ctx.chain[0] in h)
    ensures RootPtr(r) in h
    ensures Linked(Hung(h, ctx, r)[e := CLEARED], NULL, Plug(ctx, r))
  {
    AroundNode(b, h, ctx, t);
    NodeDisjoint(b, t);
    assert e in ChainSet(t.chain);
    HungInHole(b, h, ctx, e, r, e);
    TakenPtrs(b, h, ctx, t, e, r);
    ClearedOutside(Hung(h, ctx, r), e, NULL, Plug(ctx, r));
  }

  /** e, alone in its chain and without subtrees, is gone. */
  lemma TookLeaf(b: BodyHeap, h: LinkHeap, ctx: Ctx, t: Tree, e: Ptr)
    requires Takeable(b, h, ctx, t, e) && t.chain == [e] && t.small.Nil? && t.big.Nil?
    ensures ctx.Top? || (|ctx.chain| > 0 && ctx.chain[0] in h)
    ensures Linked(FillHole(h, ctx, NULL)[e := CLEARED], NULL, Plug(ctx, Nil))
  {
    AroundNode(b, h, ctx, t);
    ClearedHole(b, h, ctx, e);
    TakenPtrs(b, h, ctx, t, e, Nil);
    ClearedOutside(FillHole(h, ctx, NULL), e, NULL, Plug(ctx, Nil));
  }

  /** The subtree that lost its place when e went can be inserted again from the root. */
  lemma OrphanInsertable(b: BodyHeap, h: LinkHeap, ctx: Ctx, t: Tree, e: Ptr, r: Tree, o: Tree)
    requires Takeable(b, h, ctx, t, e) && t.chain == [e]
    requires t.small.Node? && t.big.Node?
    requires (r == t.small && o == t.big) || (r == t.big && o == t.small)
    requires ctx.Top? || (|ctx.chain| > 0 && ctx.chain[0] in h)
    requires RootPtr(r) in h
    ensures Insertable(b, Hung(h, ctx, r)[e := CLEARED], Top, Plug(ctx, r), o)
    ensures Ordered(b, r) && Fits(b, r, o)
    ensures InsertTree(b, Plug(ctx, r), o) == Plug(ctx, InsertTree(b, r, o))
  {
    AroundNode(b, h, ctx, t);
    NodeDisjoint(b, t);
    TookForSubtree(b, h, ctx, t, e, r);
    var h' := Hung(h, ctx, r)[e := CLEARED];
    assert e in ChainSet(t.chain) && o.chain[0] in ChainSet(o.chain) && r.chain[0] in ChainSet(r.chain);
    LinkedIn(h, e, o);
    assert o.chain[0] in Ptrs(o) && r.chain[0] in Ptrs(r);
    LinkedFrame(h, h', e, o);
    RootParent(h', e, o);
    Joined(b, t);
    PlugOrdered(b, ctx, t);
    InRangeSubset(b, ctx, Ptrs(o), Ptrs(t));
    InRangeSubset(b, ctx, Ptrs(r), Ptrs(t));
    PlugOrdered(b, ctx, r);
    InsertInHole(b, ctx, r, o);
    PlugPtrs(ctx, r);
  }

  /** The links after e is replaced by x in what names it, x is rewritten as l, and e is cleared. */
  function Replaced(h: LinkHeap, e: Ptr, x: Ptr, l: Links): LinkHeap
    requires e in h
  {
    var h1 := if h[e].parent == NULL then h else Relinked(h, h[e].parent, e, x);
    (if x == NULL then h1 else h1[x := l])[e := CLEARED]
  }

  /** What names e: nothing at the top, otherwise a link of its parent. */
  ghost predicate Named(h: LinkHeap, e: Ptr)
    requires e in h
  {
    h[e].parent != NULL ==>
      h[e].parent in h && (h[h[e].parent].small == e || h[h[e].parent].big == e || h[h[e].parent].same == e)
  }

  lemma ReplacedOutside(h: LinkHeap, e: Ptr, x: Ptr, l: Links, s: set<Ptr>)
    requires e in h && e in s
    requires h[e].parent == NULL || h[e].parent in s
    requires x == NULL || (x in s && x in h)
    ensures SameOutside(h, Replaced(h, e, x, l), s)
  {
  }

  ghost predicate TakenWhole(h: LinkHeap, h': LinkHeap, ctx: Ctx, t: Tree, t': Tree)
  {
    Linked(h', NULL, Plug(ctx, t')) && SameOutside(h, h', Ptrs(Plug(ctx, t)))
  }

  lemma MemberReplaced(b: BodyHeap, h: LinkHeap, ctx: Ctx, t: Tree, i: nat, l: Links)
    requires t.Node? && 0 < i < |t.chain| && Takeable(b, h, ctx, t, t.chain[i])
    requires t.chain[i] in h
    requires h[t.chain[i]].same != NULL ==>
      && h[t.chain[i]].same in h
      && l == Links(h[t.chain[i]].small, h[t.chain[i]].big, h[t.chain[i]].parent, h[h[t.chain[i]].same].same)
    ensures Named(h, t.chain[i]) && h[t.chain[i]].parent != NULL
    ensures h[t.chain[i]].same != NULL ==> h[t.chain[i]].same in h
    ensures TakenWhole(h, Replaced(h, t.chain[i], h[t.chain[i]].same, l), ctx, t,
        Node(Without(t.chain, t.chain[i]), t.small, t.big))
    ensures RootPtr(Plug(ctx, Node(Without(t.chain, t.chain[i]), t.small, t.big))) == RootPtr(Plug(ctx, t))
  {
    var e := t.chain[i];
    AroundNode(b, h, ctx, t);
    PlugPtrs(ctx, t);
    MemberNamed(b, h, ctx, t, i, h[e].same);
    var h' := Replaced(h, e, h[e].same, l);
    if i + 1 < |t.chain| {
      MemberNamed(b, h, ctx, t, i + 1, NULL);
      assert l == h[t.chain[i + 1]].(parent := t.chain[i - 1]);
    }
    TookMember(b, h, h', ctx, t, i);
    RootWithout(ctx, t, i);
    ReplacedOutside(h, e, h[e].same, l, Ptrs(Plug(ctx, t)));
  }

  lemma HeadReplaced(b: BodyHeap, h: LinkHeap, ctx: Ctx, t: Tree, l: Links)
    requires t.Node? && |t.chain| > 1 && Takeable(b, h, ctx, t, t.chain[0])
    requires t.chain[0] in h && h[t.chain[0]].same in h
    requires l == Links(h[t.chain[0]].small, h[t.chain[0]].big, h[t.chain[0]].parent, h[h[t.chain[0]].same].same)
    ensures Named(h, t.chain[0])
    ensures
      var h', t' :=
        Replaced(h, t.chain[0], t.chain[1], l), Plug(ctx, Node(Without(t.chain, t.chain[0]), t.small, t.big));
      && Reached(h', t')
      && (Linked(h', NULL, t') <==> !Stranding(h[t.chain[0]]))
      && SameOutside(h, h', Ptrs(Plug(ctx, t)))
      && RootPtr(t') == if h[t.chain[0]].parent == NULL then t.chain[1] else RootPtr(Plug(ctx, t))
  {
    var e := t.chain[0];
    AroundNode(b, h, ctx, t);
    PlugPtrs(ctx, t);
    HeadNamed(b, h, ctx, t, t.chain[1]);
    TookHead(b, h, ctx, t);
    RootWithout(ctx, t, 0);
    ReplacedOutside(h, e, t.chain[1], l, Ptrs(Plug(ctx, t)));
    assert Replaced(h, e, t.chain[1], l) == Succeeded(h, ctx, t)[e := CLEARED];
  }

  lemma SubtreeReplaced(b: BodyHeap, h: LinkHeap, ctx: Ctx, t: Tree, e: Ptr, r: Tree, l: Links)
    requires Takeable(b, h, ctx, t, e) && t.chain == [e] && e in h
    requires r.Node? && (r == t.small || r == t.big)
    requires RootPtr(r) in h && l == h[RootPtr(r)].(parent := h[e].parent)
    ensures Named(h, e)
    ensures ctx.Top? || (|ctx.chain| > 0 && ctx.chain[0] in h)
    ensures Replaced(h, e, RootPtr(r), l) == Hung(h, ctx, r)[e := CLEARED]
    ensures TakenWhole(h, Replaced(h, e, RootPtr(r), l), ctx, t, r)
    ensures RootPtr(Plug(ctx, r)) == if h[e].parent == NULL then RootPtr(r) else RootPtr(Plug(ctx, t))
  {
    AroundNode(b, h, ctx, t);
    PlugPtrs(ctx, t);
    HeadNamed(b, h, ctx, t, RootPtr(r));
    RootNonNull(b, r);
    TookForSubtree(b, h, ctx, t, e, r);
    if !ctx.Top? {
      PlugRoot(ctx, t, r);
    }
    assert Replaced(h, e, RootPtr(r), l) == Hung(h, ctx, r)[e := CLEARED];
    ReplacedOutside(h, e, RootPtr(r), l, Ptrs(Plug(ctx, t)));
  }

  lemma LeafReplaced(b: BodyHeap, h: LinkHeap, ctx: Ctx, t: Tree, e: Ptr, l: Links)
    requires Takeable(b, h, ctx, t, e) && t.chain == [e] && e in h
    requires t.small.Nil? && t.big.Nil?
    ensures Named(h, e)
    ensures TakenWhole(h, Replaced(h, e, NULL, l), ctx, t, Nil)
    ensures RootPtr(Plug(ctx, Nil)) == if h[e].parent == NULL then NULL else RootPtr(Plug(ctx, t))
  {
    AroundNode(b, h, ctx, t);
    PlugPtrs(ctx, t);
    HeadNamed(b, h, ctx, t, NULL);
    TookLeaf(b, h, ctx, t, e);
    if !ctx.Top? {
      PlugRoot(ctx, t, Nil);
    }
    assert Replaced(h, e, NULL, l) == FillHole(h, ctx, NULL)[e := CLEARED];
    ReplacedOutside(h, e, NULL, l, Ptrs(Plug(ctx, t)));
  }

  /** How TakeOffElement leaves the links: the tree without e, whole again unless e was stranding its subtrees. */
  ghost predicate TakenOff(b: BodyHeap, h: LinkHeap, h': LinkHeap, ctx: Ctx, t: Tree, e: Ptr)
    requires Takeable(b, h, ctx, t, e) && e in h
  {
    var t' := Plug(ctx, TakeNode(b, t, e, ctx.BigOf?));
    var takenOff :=
      && Reached(h', t')
      && (Linked(h', NULL, t') <==> !Stranding(h[e]))
      && SameOutside(h, h', Ptrs(Plug(ctx, t)))
      && e in h' && h'[e] == CLEARED;
    takenOff
  }

  /** The successor's links after e is replaced by it. */
  function SuccessorLinks(h: LinkHeap, e: Ptr): Links
    requires e in h && h[e].same in h
  {
    Links(h[e].small, h[e].big, h[e].parent, h[h[e].same].same)
  }

  lemma MemberTakenOff(b: BodyHeap, h: LinkHeap, ctx: Ctx, t: Tree, e: Ptr, i: nat)
    requires Takeable(b, h, ctx, t, e) && e in h && 0 < i < |t.chain| && t.chain[i] == e
    ensures Named(h, e) && h[e].parent != NULL && (h[e].same != NULL ==> h[e].same in h)
    ensures
      var l := if h[e].same == NULL then CLEARED else SuccessorLinks(h, e);
      TakenOff(b, h, Replaced(h, e, h[e].same, l), ctx, t, e)
    ensures RootPtr(Plug(ctx, TakeNode(b, t, e, ctx.BigOf?))) == RootPtr(Plug(ctx, t))
    ensures h[e].small == h[e].big == NULL
  {
    MemberNamed(b, h, ctx, t, i, h[e].same);
    var l := if h[e].same == NULL then CLEARED else SuccessorLinks(h, e);
    MemberReplaced(b, h, ctx, t, i, l);
    LinkedReached(Replaced(h, e, h[e].same, l), NULL, Plug(ctx, Node(Without(t.chain, e), t.small, t.big)));
  }

  lemma HeadTakenOff(b: BodyHeap, h: LinkHeap, ctx: Ctx, t: Tree, e: Ptr)
    requires Takeable(b, h, ctx, t, e) && e in h && h[e].same != NULL && t.chain[0] == e
    ensures Named(h, e) && h[e].same in h
    ensures TakenOff(b, h, Replaced(h, e, h[e].same, SuccessorLinks(h, e)), ctx, t, e)
    ensures
      RootPtr(Plug(ctx, TakeNode(b, t, e, ctx.BigOf?))) ==
        if h[e].parent == NULL then h[e].same else RootPtr(Plug(ctx, t))
  {
    HeadNamed(b, h, ctx, t, h[e].same);
    AroundNode(b, h, ctx, t);
    HeadReplaced(b, h, ctx, t, SuccessorLinks(h, e));
  }

  /** The branch of an element with a successor. */
  lemma TakenOffFollowed(b: BodyHeap, h: LinkHeap, ctx: Ctx, t: Tree, e: Ptr)
    requires Takeable(b, h, ctx, t, e) && e in h && h[e].same != NULL
    ensures Named(h, e) && h[e].same in h
    ensures TakenOff(b, h, Replaced(h, e, h[e].same, SuccessorLinks(h, e)), ctx, t, e)
    ensures
      RootPtr(Plug(ctx, TakeNode(b, t, e, ctx.BigOf?))) ==
        if h[e].parent == NULL then h[e].same else RootPtr(Plug(ctx, t))
  {
    var i :| 0 <= i < |t.chain| && t.chain[i] == e;
    if i == 0 {
      HeadTakenOff(b, h, ctx, t, e);
    } else {
      MemberTakenOff(b, h, ctx, t, e, i);
    }
  }

  /** An element without successor that is alone in its chain, or the last of it and then without subtrees. */
  lemma LastInChain(b: BodyHeap, h: LinkHeap, ctx: Ctx, t: Tree, e: Ptr) returns (i: nat)
    requires Takeable(b, h, ctx, t, e) && e in h && h[e].same == NULL
    ensures i == |t.chain| - 1 && t.chain[i] == e
    ensures i == 0 ==> t.chain == [e]
    ensures i == 0 ==> h[e].small == RootPtr(t.small) && h[e].big == RootPtr(t.big)
    ensures i == 0 ==> (t.small.Node? <==> h[e].small != NULL) && (t.big.Node? <==> h[e].big != NULL)
    ensures i > 0 ==> h[e].small == h[e].big == NULL
  {
    i :| 0 <= i < |t.chain| && t.chain[i] == e;
    AroundNode(b, h, ctx, t);
    SameAt(h, t.chain, i);
    RootNonNull(b, t.small);
    RootNonNull(b, t.big);
    assert NULL !in t.chain;
  }

  /** The branches of an element without successor and with at most one subtree, rooted at x. */
  lemma TakenOffSingle(b: BodyHeap, h: LinkHeap, ctx: Ctx, t: Tree, e: Ptr, x: Ptr)
    requires Takeable(b, h, ctx, t, e) && e in h && h[e].same == NULL
    requires (h[e].small == NULL && h[e].big == x) || (h[e].big == NULL && h[e].small == x)
    ensures Named(h, e) && (x != NULL ==> x in h)
    ensures
      var l := if x == NULL then CLEARED else h[x].(parent := h[e].parent);
      TakenOff(b, h, Replaced(h, e, x, l), ctx, t, e)
    ensures
      RootPtr(Plug(ctx, TakeNode(b, t, e, ctx.BigOf?))) == if h[e].parent == NULL then x else RootPtr(Plug(ctx, t))
  {
    var i := LastInChain(b, h, ctx, t, e);
    if i > 0 {
      MemberTakenOff(b, h, ctx, t, e, i);
    } else {
      AloneTakenOff(b, h, ctx, t, e, x);
    }
  }

  lemma AloneTakenOff(b: BodyHeap, h: LinkHeap, ctx: Ctx, t: Tree, e: Ptr, x: Ptr)
    requires Takeable(b, h, ctx, t, e) && e in h && t.chain == [e]
    requires (h[e].small == NULL && h[e].big == x) || (h[e].big == NULL && h[e].small == x)
    ensures Named(h, e) && (x != NULL ==> x in h)
    ensures
      var l := if x == NULL then CLEARED else h[x].(parent := h[e].parent);
      TakenOff(b, h, Replaced(h, e, x, l), ctx, t, e)
    ensures
      RootPtr(Plug(ctx, TakeNode(b, t, e, ctx.BigOf?))) == if h[e].parent == NULL then x else RootPtr(Plug(ctx, t))
  {
    HeadNamed(b, h, ctx, t, NULL);
    AroundNode(b, h, ctx, t);
    LinkedIn(h, HoleParent(ctx), t);
    RootNonNull(b, t.small);
    RootNonNull(b, t.big);
    if x == NULL {
      LeafReplaced(b, h, ctx, t, e, CLEARED);
      LinkedReached(Replaced(h, e, NULL, CLEARED), NULL, Plug(ctx, Nil));
    } else {
      var r := if t.big.Node? then t.big else t.small;
      var l := h[x].(parent := h[e].parent);
      SubtreeReplaced(b, h, ctx, t, e, r, l);
      LinkedReached(Replaced(h, e, x, l), NULL, Plug(ctx, r));
    }
  }

  /**
   The branch of an element with both subtrees: r takes its place, and o, left over, can
   be inserted from the root, which gives the tree without e.
   */
  lemma TakenOffBetween(b: BodyHeap, h: LinkHeap, ctx: Ctx, t: Tree, e: Ptr, r: Tree, o: Tree)
    requires Takeable(b, h, ctx, t, e) && e in h && h[e].same == NULL && h[e].small != NULL && h[e].big != NULL
    requires t.chain == [e] && if ctx.BigOf? then r == t.small && o == t.big else r == t.big && o == t.small
    ensures Named(h, e) && RootPtr(r) in h
    ensures
      var h' := Replaced(h, e, RootPtr(r), h[RootPtr(r)].(parent := h[e].parent));
      && Insertable(b, h', Top, Plug(ctx, r), o)
      && InsertTree(b, Plug(ctx, r), o) == Plug(ctx, TakeNode(b, t, e, ctx.BigOf?))
      && SameOutside(h, h', Ptrs(Plug(ctx, t))) && e in h' && h'[e] == CLEARED
    ensures RootPtr(Plug(ctx, r)) == if h[e].parent == NULL then RootPtr(r) else RootPtr(Plug(ctx, t))
  {
    var i := LastInChain(b, h, ctx, t, e);
    AroundNode(b, h, ctx, t);
    LinkedIn(h, HoleParent(ctx), t);
    RootNonNull(b, r);
    RootNonNull(b, o);
    SubtreeReplaced(b, h, ctx, t, e, r, h[RootPtr(r)].(parent := h[e].parent));
    OrphanInsertable(b, h, ctx, t, e, r, o);
  }

  lemma BetweenPtrs(b: BodyHeap, h: LinkHeap, ctx: Ctx, t: Tree, e: Ptr, r: Tree, o: Tree)
    requires Takeable(b, h, ctx, t, e) && t.chain == [e]
    requires (r == t.small && o == t.big) || (r == t.big && o == t.small)
    requires o.Node?
    ensures Ptrs(Plug(ctx, r)) + {RootPtr(o)} <= Ptrs(Plug(ctx, t)) - {e}
  {
    AroundNode(b, h, ctx, t);
    RootNonNull(b, o);
    NodeDisjoint(b, t);
    assert e in ChainSet(t.chain);
    TakenPtrs(b, h, ctx, t, e, r);
    PlugPtrs(ctx, t);
  }

  /** The subtree o was inserted into what is left when r takes the place of e. */
  lemma InsertedBetween(b: BodyHeap, h: LinkHeap, h1: LinkHeap, h2: LinkHeap, ctx: Ctx, t: Tree, e: Ptr, r: Tree,
                        o: Tree)
    requires Takeable(b, h, ctx, t, e) && e in h && !Stranding(h[e]) && t.chain == [e] && o.Node?
    requires (r == t.small && o == t.big) || (r == t.big && o == t.small)
    requires SameOutside(h, h1, Ptrs(Plug(ctx, t))) && e in h1 && h1[e] == CLEARED
    requires
      && Linked(h2, NULL, Plug(ctx, TakeNode(b, t, e, ctx.BigOf?)))
      && SameOutside(h1, h2, Ptrs(Plug(ctx, r)) + {RootPtr(o)})
    ensures TakenOff(b, h, h2, ctx, t, e)
  {
    BetweenPtrs(b, h, ctx, t, e, r, o);
    LinkedReached(h2, NULL, Plug(ctx, TakeNode(b, t, e, ctx.BigOf?)));
  }

  lemma LeafInsertable(b: BodyHeap, h: LinkHeap, t: Tree, e: Ptr)
    requires t.Node? && Ordered(b, t) && Linked(h, NULL, t)
    requires e in h && e in b && e != NULL && e !in Ptrs(t) && h[e] == CLEARED
    ensures Insertable(b, h, Top, t, Leaf(e))
  {
    ElementFits(b, t, e);
    assert Linked(h, NULL, Leaf(e));
  }

  /** A tree that shares nothing with the one e is taken off stays linked. */
  lemma LinkedBeside(h: LinkHeap, h': LinkHeap, s: set<Ptr>, d: Tree)
    requires SameOutside(h, h', s) && Ptrs(d) !! s
    requires Linked(h, NULL, d)
    ensures Linked(h', NULL, d)
  {
    LinkedIn(h, NULL, d);
    LinkedFrame(h, h', NULL, d);
  }

  lemma SameOutsideBoth(h: LinkHeap, h1: LinkHeap, h2: LinkHeap, s1: set<Ptr>, s2: set<Ptr>, s: set<Ptr>)
    requires SameOutside(h, h1, s1) && SameOutside(h1, h2, s2) && s1 <= s && s2 <= s
    ensures SameOutside(h, h2, s)
  {
  }
}
