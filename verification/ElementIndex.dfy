/**
 The index of a k2hash file: the KINDEX slots, their CKINDEX arrays and the binary trees of
 ELEMENTs, updated in place by inserting, taking off, and the rearranging that a wider mask asks for.
 */
module ElementIndex {
  import opened Layout
  import opened KeyIndexPos
  import opened ElementTree
  import opened ElementLinks
  import opened TreeMoves
  import opened KIndexHome
  import opened Forest
  import opened ElementStore
  import opened TreeSearch
  import opened AreaLayout

  class Index {
    var links: LinkHeap
    var bodies: BodyHeap
    var ck: CKHeap
    var assign: AssignMap
    var maskBits: nat
    var pfreeElements: Ptr
    var freeElementCount: nat
    const collisionBits: nat
    const maxMaskBits: nat
    const maxElementCount: nat
    const areas: Areas

    ghost var trees: Trees
    ghost var loc: Places
    ghost var free: seq<Ptr>
    ghost var held: set<Ptr>

    ghost predicate Valid()
      reads this, areas, areas.table
    {
      && Indexed(bodies, links, ck, assign, maskBits, collisionBits, trees, loc)
      && Kept(bodies, links, loc, free, held, pfreeElements, areas.used) && freeElementCount == |free|
      && areas.Valid()
    }

    /** Two hashes of one live element, and where it is looked for. */
    ghost predicate Live(p: Ptr, hash: nat, subhash: nat)
      reads this
    {
      p in loc && p in bodies && bodies[p].hash == hash && bodies[p].subhash == subhash
    }

    /**
     Hangs the tree o, rooted at e, below the tree t rooted at top; t is the subtree at
     ctx of the whole tree.  Only e and elements of t are written.
     */
    method InsertElement(top: Ptr, e: Ptr, ghost ctx: Ctx, ghost t: Tree, ghost o: Tree)
      requires Insertable(bodies, links, ctx, t, o)
      requires top == RootPtr(t) && e == RootPtr(o)
      modifies this`links
      ensures Linked(links, NULL, Plug(ctx, InsertTree(bodies, t, o)))
      ensures SameOutside(old(links), links, Ptrs(t) + {e})
      decreases t
    {
      ghost var h := links;
      InsertableRoots(bodies, h, ctx, t, o);
      if bodies[top].subhash < bodies[e].subhash {
        if links[top].big != NULL {
          DescendBig(bodies, h, ctx, t, o);
          InsertElement(links[top].big, e, BigOf(t.chain, t.small, ctx), t.big, o);
          SameOutsideWider(h, links, Ptrs(t.big) + {e}, Ptrs(t) + {e});
        } else {
          links := links[top := links[top].(big := e)];
          links := links[e := links[e].(parent := top)];
          HungBig(bodies, h, links, ctx, t, o);
        }
      } else if bodies[e].subhash < bodies[top].subhash {
        if links[top].small != NULL {
          DescendSmall(bodies, h, ctx, t, o);
          InsertElement(links[top].small, e, SmallOf(t.chain, t.big, ctx), t.small, o);
          SameOutsideWider(h, links, Ptrs(t.small) + {e}, Ptrs(t) + {e});
        } else {
          links := links[top := links[top].(small := e)];
          links := links[e := links[e].(parent := top)];
          HungSmall(bodies, h, links, ctx, t, o);
        }
      } else {
        var last := LastSame(top, t.chain);
        links := links[last := links[last].(same := e)];
        links := links[e := links[e].(parent := last)];
        HungBehind(bodies, h, links, ctx, t, o, last);
      }
    }

    /** The last element of a chain, found by following `same`. */
    method LastSame(top: Ptr, ghost chain: seq<Ptr>) returns (last: Ptr)
      requires SameLinked(links, chain) && NULL !in chain && top == chain[0]
      ensures last == chain[|chain| - 1]
    {
      last := top;
      ghost var i := 0;
      SameAt(links, chain, 0);
      while links[last].same != NULL
        invariant 0 <= i < |chain| && last == chain[i] && last in links
        invariant links[last].same == if i + 1 < |chain| then chain[i + 1] else NULL
        decreases |chain| - i
      {
        last := links[last].same;
        i := i + 1;
        SameAt(links, chain, i);
      }
    }

    /** Makes the link that names e, in its parent or in the CKINDEX, name x. */
    method Relink(cp: CKPtr, e: Ptr, x: Ptr)
      requires cp in ck && e in links && Named(links, e)
      modifies this`links, this`ck
      ensures links ==
        if old(links[e].parent) == NULL then old(links) else Relinked(old(links), old(links[e].parent), e, x)
      ensures ck == if old(links[e].parent) == NULL then old(ck)[cp := old(ck)[cp].(elementList := x)] else old(ck)
    {
      var parent := links[e].parent;
      if parent == NULL {
        ck := ck[cp := ck[cp].(elementList := x)];
      } else if links[parent].small == e {
        links := links[parent := links[parent].(small := x)];
      } else if links[parent].big == e {
        links := links[parent := links[parent].(big := x)];
      } else {
        links := links[parent := links[parent].(same := x)];
      }
    }

    /** Takes e out of the tree below cp and counts it off. */
    method TakeOffElement(cp: CKPtr, e: Ptr, ghost ctx: Ctx, ghost t: Tree)
      requires Takeable(bodies, links, ctx, t, e) && e in links
      requires cp in ck && ck[cp] == CKIndex(Size(Plug(ctx, t)), RootPtr(Plug(ctx, t)))
      modifies this`links, this`ck
      ensures TakenOff(bodies, old(links), links, ctx, t, e)
      ensures
        var t' := Plug(ctx, TakeNode(bodies, t, e, ctx.BigOf?));
        ck == old(ck)[cp := CKIndex(Size(t'), RootPtr(t'))]
    {
      Unhook(cp, e, ctx, t);
      assert Size(Plug(ctx, TakeNode(bodies, t, e, ctx.BigOf?))) == Size(Plug(ctx, t)) - 1 by {
        TakenFromTree(bodies, ctx, t, e, ctx.BigOf?);
      }
      ck := ck[cp := ck[cp].(elementCount := ck[cp].elementCount - 1)];
    }

    /** The link part of TakeOffElement, one branch for each set of links e has. */
    method Unhook(cp: CKPtr, e: Ptr, ghost ctx: Ctx, ghost t: Tree)
      requires Takeable(bodies, links, ctx, t, e) && e in links
      requires cp in ck && ck[cp].elementList == RootPtr(Plug(ctx, t))
      modifies this`links, this`ck
      ensures TakenOff(bodies, old(links), links, ctx, t, e)
      ensures ck == old(ck)[cp := old(ck)[cp].(elementList := RootPtr(Plug(ctx, TakeNode(bodies, t, e, ctx.BigOf?))))]
    {
      var l := links[e];
      if l.same != NULL {
        TakenOffFollowed(bodies, links, ctx, t, e);
        ReplaceInParent(cp, e, l.same, Links(l.small, l.big, l.parent, links[l.same].same));
      } else if l.big != NULL && l.small != NULL {
        UnhookBetween(cp, e, ctx, t);
      } else if l.big != NULL {
        TakenOffSingle(bodies, links, ctx, t, e, l.big);
        ReplaceInParent(cp, e, l.big, links[l.big].(parent := l.parent));
      } else if l.small != NULL {
        TakenOffSingle(bodies, links, ctx, t, e, l.small);
        ReplaceInParent(cp, e, l.small, links[l.small].(parent := l.parent));
      } else {
        TakenOffSingle(bodies, links, ctx, t, e, NULL);
        ReplaceInParent(cp, e, NULL, CLEARED);
      }
    }

    /** The branch of Unhook for an element with both subtrees. */
    method UnhookBetween(cp: CKPtr, e: Ptr, ghost ctx: Ctx, ghost t: Tree)
      requires Takeable(bodies, links, ctx, t, e) && e in links
      requires links[e].same == NULL && links[e].small != NULL && links[e].big != NULL
      requires cp in ck && ck[cp].elementList == RootPtr(Plug(ctx, t))
      modifies this`links, this`ck
      ensures TakenOff(bodies, old(links), links, ctx, t, e)
      ensures ck == old(ck)[cp := old(ck)[cp].(elementList := RootPtr(Plug(ctx, TakeNode(bodies, t, e, ctx.BigOf?))))]
    {
      ghost var h := links;
      ghost var i := LastInChain(bodies, links, ctx, t, e);
      HeadNamed(bodies, links, ctx, t, NULL);
      ghost var r, o := if ctx.BigOf? then t.small else t.big, if ctx.BigOf? then t.big else t.small;
      TakenOffBetween(bodies, links, ctx, t, e, r, o);
      ghost var h' := Replaced(links, e, RootPtr(r), links[RootPtr(r)].(parent := links[e].parent));
      RaiseChild(cp, e, ctx, r, o);
      InsertedBetween(bodies, h, h', links, ctx, t, e, r, o);
    }

    /** Puts the subtree r where e is linked and hangs the other one, o, into the tree from its top on. */
    method RaiseChild(cp: CKPtr, e: Ptr, ghost ctx: Ctx, ghost r: Tree, ghost o: Tree)
      requires cp in ck && e in links && Named(links, e) && links[e].small in links && links[e].big in links
      requires links[e].small != NULL && links[e].big != NULL
      requires
        var l := links[e];
        var atBig := l.parent != NULL && l.parent in links && links[l.parent].small != e;
        RootPtr(r) == (if atBig then l.small else l.big) && RootPtr(o) == (if atBig then l.big else l.small)
      requires Insertable(bodies, Replaced(links, e, RootPtr(r), links[RootPtr(r)].(parent := links[e].parent)), Top,
          Plug(ctx, r), o)
      requires RootPtr(Plug(ctx, r)) == if links[e].parent == NULL then RootPtr(r) else ck[cp].elementList
      modifies this`links, this`ck
      ensures Linked(links, NULL, InsertTree(bodies, Plug(ctx, r), o))
      ensures RootPtr(r) in old(links) && e in old(links) && Named(old(links), e)
      ensures SameOutside(Replaced(old(links), e, RootPtr(r), old(links)[RootPtr(r)].(parent := old(links)[e].parent)),
          links, Ptrs(Plug(ctx, r)) + {RootPtr(o)})
      ensures ck == old(ck)[cp := old(ck)[cp].(elementList := RootPtr(Plug(ctx, r)))]
    {
      var other := ReplaceByChild(cp, e);
      InsertElement(ck[cp].elementList, other, Top, Plug(ctx, r), o);
    }

    /** Puts one of the two subtrees of e where e is linked and gives the other one. */
    method ReplaceByChild(cp: CKPtr, e: Ptr) returns (other: Ptr)
      requires cp in ck && e in links && Named(links, e) && links[e].small in links && links[e].big in links
      requires links[e].small != NULL && links[e].big != NULL
      modifies this`links, this`ck
      ensures e in old(links) && old(links)[e].small in old(links) && old(links)[e].big in old(links)
      ensures
        var l := old(links)[e];
        var atBig := l.parent != NULL && l.parent in old(links) && old(links)[l.parent].small != e;
        var x := if atBig then l.small else l.big;
        && other == (if atBig then l.big else l.small)
        && links == Replaced(old(links), e, x, old(links)[x].(parent := l.parent))
        && cp in old(ck)
        && ck == old(ck)[cp := old(ck)[cp].(elementList := if l.parent == NULL then x else old(ck)[cp].elementList)]
    {
      var l := links[e];
      if l.parent != NULL && links[l.parent].small != e {
        // the parent's big: the small subtree takes the place
        ReplaceInParent(cp, e, l.small, links[l.small].(parent := l.parent));
        other := l.big;
      } else {
        // the parent's small, or the top: the big subtree takes the place
        ReplaceInParent(cp, e, l.big, links[l.big].(parent := l.parent));
        other := l.small;
      }
    }

    /** Puts x, with links l, where e is linked, and clears e. */
    method ReplaceInParent(cp: CKPtr, e: Ptr, x: Ptr, l: Links)
      requires cp in ck && e in links && Named(links, e)
      modifies this`links, this`ck
      ensures links == Replaced(old(links), e, x, l)
      ensures ck == if old(links[e].parent) == NULL then old(ck)[cp := old(ck)[cp].(elementList := x)] else old(ck)
      ensures ck ==
        old(ck)[cp := old(ck)[cp].(elementList := if old(links[e].parent) == NULL then x else old(ck)[cp].elementList)]
    {
      Relink(cp, e, x);
      if x != NULL {
        links := links[x := l];
      }
      links := links[e := CLEARED];
    }

    /** Puts the unlinked element e below cp and counts it. */
    method PutElement(cp: CKPtr, e: Ptr, ghost t: Tree)
      requires Holds(bodies, links, ck, cp, t)
      requires e in links && e in bodies && e != NULL && e !in Ptrs(t) && links[e] == CLEARED
      modifies this`links, this`ck
      ensures Holds(bodies, links, ck, cp, AddTree(bodies, t, e))
      ensures CKOutside(old(ck), ck, {cp})
      ensures SameOutside(old(links), links, Ptrs(t) + {e})
    {
      ElementFits(bodies, t, e);
      RootNonNull(bodies, t);
      if ck[cp].elementList != NULL {
        LeafInsertable(bodies, links, t, e);
        InsertElement(ck[cp].elementList, e, Top, t, Leaf(e));
      } else {
        ck := ck[cp := ck[cp].(elementList := e)];
      }
      AddedTree(bodies, t, e);
      ck := ck[cp := ck[cp].(elementCount := ck[cp].elementCount + 1)];
    }

    /** Takes e off src and puts it below dst. */
    method MoveOne(e: Ptr, src: CKPtr, dst: CKPtr, ghost ctx: Ctx, ghost t: Tree, ghost d: Tree)
      returns (ghost t': Tree, ghost d': Tree)
      requires Between(bodies, links, ck, src, dst, ctx, t, d)
      requires t.Node? && Ordered(bodies, t) && e in t.chain && e in links && !Stranding(links[e])
      modifies this`links, this`ck
      ensures Moved(bodies, old(links), old(ck), links, ck, Move(src, dst, ctx, t, d, t', d'), {e})
      ensures t' == TakeNode(bodies, t, e, ctx.BigOf?)
    {
      assert Look(BETWEEN, 0);
      ghost var h, c := links, ck;
      TakeOffElement(src, e, ctx, t);
      ghost var h1, c1 := links, ck;
      TakenFirst(bodies, h, c, h1, c1, src, dst, ctx, t, d, e);
      PutElement(dst, e, d);
      t', d' := TakeNode(bodies, t, e, ctx.BigOf?), AddTree(bodies, d, e);
      PutThen(bodies, h, c, h1, c1, links, ck, Move(src, dst, ctx, t, d, t', d'), e);
    }

    /**
     MoveElementToUpperMask on a later member of a chain: it has no small and no big, so only
     the rest of the chain is below it.
     */
    method MoveMember(e: Ptr, src: CKPtr, dst: CKPtr, k: nat, val: nat,
                      ghost ctx: Ctx, ghost t: Tree, ghost i: nat, ghost d: Tree)
      returns (ghost t': Tree, ghost d': Tree)
      requires Between(bodies, links, ck, src, dst, ctx, t, d)
      requires t.Node? && 0 < i < |t.chain| && e == t.chain[i] && e in bodies
      requires SubhashDecides(bodies, ChainSet(t.chain))
      modifies this`links, this`ck
      ensures
        Moved(bodies, old(links), old(ck), links, ck, Move(src, dst, ctx, t, d, t', d'),
              MatchingRest(bodies, e, t.chain[i..], collisionBits, k, val))
      ensures t' == Node(if Matches(bodies, e, collisionBits, k, val) then t.chain[..i] else t.chain, t.small, t.big)
      decreases |t.chain| - i, 1
    {
      assert Look(BETWEEN, 0);
      t', d' := MoveSame(e, src, dst, k, val, ctx, t, i, d);
      if Low(Shift(bodies[e].hash, collisionBits), k) == val {
        ghost var h, c, t1, d1 := links, ck, t', d';
        ChainLinks(bodies, h, ctx, t1, i);
        ChainCut(bodies, t, i);
        t', d' := MoveOne(e, src, dst, ctx, t1, d1);
        MemberMoved(bodies, old(links), old(ck), h, c, links, ck, Move(src, dst, ctx, t, d, t1, d1), i, t', d');
        assert Moved(bodies, old(links), old(ck), links, ck, Move(src, dst, ctx, t, d, t', d'),
                     MatchingRest(bodies, e, t.chain[i..], collisionBits, k, val));
      } else {
        assert MatchingRest(bodies, e, t.chain[i..], collisionBits, k, val)
            == MatchingRest(bodies, e, t.chain[i + 1..], collisionBits, k, val);
      }
    }

    /** The `same` branch of MoveElementToUpperMask: the members behind e in its chain. */
    method MoveSame(e: Ptr, src: CKPtr, dst: CKPtr, k: nat, val: nat,
                    ghost ctx: Ctx, ghost t: Tree, ghost i: nat, ghost d: Tree)
      returns (ghost t': Tree, ghost d': Tree)
      requires Between(bodies, links, ck, src, dst, ctx, t, d)
      requires t.Node? && i < |t.chain| && e == t.chain[i] && e in bodies
      requires SubhashDecides(bodies, ChainSet(t.chain))
      modifies this`links, this`ck
      ensures
        Moved(bodies, old(links), old(ck), links, ck, Move(src, dst, ctx, t, d, t', d'),
              MatchingRest(bodies, e, t.chain[i + 1..], collisionBits, k, val))
      ensures t' ==
        Node(if Matches(bodies, e, collisionBits, k, val) then t.chain[..i + 1] else t.chain, t.small, t.big)
      ensures Ordered(bodies, t)
      decreases |t.chain| - i, 0
    {
      assert Look(BETWEEN, 0);
      ChainLinks(bodies, links, ctx, t, i);
      if links[e].same != NULL {
        ChainMatches(bodies, t, i, i + 1, collisionBits, k, val);
        t', d' := MoveMember(links[e].same, src, dst, k, val, ctx, t, i + 1, d);
      } else {
        t', d' := t, d;
        ChainTail(t.chain, i);
        NoneMoved(bodies, links, ck, src, dst, ctx, t, d);
      }
    }

    /** The `small` branch of MoveElementToUpperMask: the tree of the smaller subhashes. */
    method MoveSmall(e: Ptr, src: CKPtr, dst: CKPtr, k: nat, val: nat, ghost ctx: Ctx, ghost t: Tree, ghost d: Tree)
      returns (ghost t': Tree, ghost d': Tree)
      requires Between(bodies, links, ck, src, dst, ctx, t, d)
      requires t.Node? && e == RootPtr(t) && SubhashDecides(bodies, Ptrs(t.small))
      modifies this`links, this`ck
      ensures
        Moved(bodies, old(links), old(ck), links, ck, Move(src, dst, ctx, t, d, t', d'),
              Matching(bodies, Ptrs(t.small), collisionBits, k, val))
      ensures t'.Node? && t'.chain == t.chain && t'.big == t.big
      decreases t.small, 3
    {
      assert Look(BETWEEN, 0);
      PlugOrdered(bodies, ctx, t);
      ChainLinks(bodies, links, ctx, t, 0);
      if links[e].small != NULL {
        ghost var inner, small := SmallOf(t.chain, t.big, ctx), t.small;
        small, d' := MoveElementToUpperMask(links[e].small, src, dst, k, val, inner, t.small, d);
        MovedOutOfSmall(bodies, old(links), old(ck), links, ck, ctx, t, Move(src, dst, inner, t.small, d, small, d'),
                        Matching(bodies, Ptrs(t.small), collisionBits, k, val));
        t' := Node(t.chain, small, t.big);
      } else {
        t', d' := t, d;
        NoneMoved(bodies, links, ck, src, dst, ctx, t, d);
        assert Matching(bodies, Ptrs(t.small), collisionBits, k, val) == {};
      }
    }

    /** The `big` branch of MoveElementToUpperMask: the tree of the bigger subhashes. */
    method MoveBig(e: Ptr, src: CKPtr, dst: CKPtr, k: nat, val: nat, ghost ctx: Ctx, ghost t: Tree, ghost d: Tree)
      returns (ghost t': Tree, ghost d': Tree)
      requires Between(bodies, links, ck, src, dst, ctx, t, d)
      requires t.Node? && e == RootPtr(t) && SubhashDecides(bodies, Ptrs(t.big))
      modifies this`links, this`ck
      ensures
        Moved(bodies, old(links), old(ck), links, ck, Move(src, dst, ctx, t, d, t', d'),
              Matching(bodies, Ptrs(t.big), collisionBits, k, val))
      ensures t'.Node? && t'.chain == t.chain && t'.small == t.small
      decreases t.big, 3
    {
      assert Look(BETWEEN, 0);
      PlugOrdered(bodies, ctx, t);
      ChainLinks(bodies, links, ctx, t, 0);
      if links[e].big != NULL {
        ghost var inner, big := BigOf(t.chain, t.small, ctx), t.big;
        big, d' := MoveElementToUpperMask(links[e].big, src, dst, k, val, inner, t.big, d);
        MovedOutOfBig(bodies, old(links), old(ck), links, ck, ctx, t, Move(src, dst, inner, t.big, d, big, d'),
                      Matching(bodies, Ptrs(t.big), collisionBits, k, val));
        t' := Node(t.chain, t.small, big);
      } else {
        t', d' := t, d;
        NoneMoved(bodies, links, ck, src, dst, ctx, t, d);
        assert Matching(bodies, Ptrs(t.big), collisionBits, k, val) == {};
      }
    }

    /**
     Moves, out of the subtree t of src at ctx, whose root is e, every element that matches the
     target under the mask of k bits, and no other element, to dst.
     */
    method MoveElementToUpperMask(e: Ptr, src: CKPtr, dst: CKPtr, k: nat, val: nat,
                                  ghost ctx: Ctx, ghost t: Tree, ghost d: Tree)
      returns (ghost t': Tree, ghost d': Tree)
      requires Between(bodies, links, ck, src, dst, ctx, t, d)
      requires t.Node? && Ordered(bodies, t) && e == RootPtr(t) && SubhashDecides(bodies, Ptrs(t))
      modifies this`links, this`ck
      ensures
        Moved(bodies, old(links), old(ck), links, ck, Move(src, dst, ctx, t, d, t', d'),
              Matching(bodies, Ptrs(t), collisionBits, k, val))
      decreases t, 2
    {
      assert Look(BETWEEN, 0);
      ghost var h0, c0 := links, ck;
      ChainLinks(bodies, links, ctx, t, 0);
      t', d' := MoveBelow(e, src, dst, k, val, ctx, t, d);
      MatchingNode(bodies, t, collisionBits, k, val);
      if Low(Shift(bodies[e].hash, collisionBits), k) == val {
        ghost var h3, c3, t3, d3 := links, ck, t', d';
        ChainLinks(bodies, h3, ctx, t3, 0);
        t', d' := MoveOne(e, src, dst, ctx, t3, d3);
        MovedTwice(bodies, h0, c0, h3, c3, links, ck, Move(src, dst, ctx, t, d, t3, d3),
          Move(src, dst, ctx, t3, d3, t', d'),
                   MatchingBelow(bodies, t, collisionBits, k, val), {e});
      }
    }

    /** The children steps of MoveElementToUpperMask: everything below e. */
    method MoveBelow(e: Ptr, src: CKPtr, dst: CKPtr, k: nat, val: nat, ghost ctx: Ctx, ghost t: Tree, ghost d: Tree)
      returns (ghost t': Tree, ghost d': Tree)
      requires Between(bodies, links, ck, src, dst, ctx, t, d)
      requires t.Node? && Ordered(bodies, t) && e == RootPtr(t) && e in bodies && SubhashDecides(bodies, Ptrs(t))
      modifies this`links, this`ck
      ensures
        Moved(bodies, old(links), old(ck), links, ck, Move(src, dst, ctx, t, d, t', d'),
              MatchingBelow(bodies, t, collisionBits, k, val))
      ensures t'.Node? && t'.chain == if Matches(bodies, e, collisionBits, k, val) then t.chain[..1] else t.chain
      decreases t, 1
    {
      ghost var h0, c0 := links, ck;
      PartsDecide(bodies, t);
      ghost var m1, m2 := MatchingRest(bodies, e, t.chain[1..], collisionBits, k, val), MatchingSubtrees(bodies, t,
        collisionBits, k, val);
      ghost var t1, d1 := MoveSame(e, src, dst, k, val, ctx, t, 0, d);
      ghost var h1, c1 := links, ck;
      t', d' := MoveBoth(e, src, dst, k, val, ctx, t1, d1, t);
      MovedTwice(bodies, h0, c0, h1, c1, links, ck, Move(src, dst, ctx, t, d, t1, d1),
        Move(src, dst, ctx, t1, d1, t', d'), m1, m2);
    }

    /** The steps for both subtrees of e. */
    method MoveBoth(e: Ptr, src: CKPtr, dst: CKPtr, k: nat, val: nat, ghost ctx: Ctx, ghost t: Tree, ghost d: Tree,
                    ghost whole: Tree)
      returns (ghost t': Tree, ghost d': Tree)
      requires Between(bodies, links, ck, src, dst, ctx, t, d)
      requires t.Node? && whole.Node? && whole.small == t.small && whole.big == t.big
      requires
        && |t.chain| > 0 && e == RootPtr(t) && SubhashDecides(bodies, Ptrs(t.small))
        && SubhashDecides(bodies, Ptrs(t.big))
      modifies this`links, this`ck
      ensures
        Moved(bodies, old(links), old(ck), links, ck, Move(src, dst, ctx, t, d, t', d'),
              MatchingSubtrees(bodies, t, collisionBits, k, val))
      ensures t'.Node? && t'.chain == t.chain
      decreases whole, 0
    {
      ghost var h0, c0 := links, ck;
      ghost var t1, d1 := MoveSmall(e, src, dst, k, val, ctx, t, d);
      ghost var h1, c1 := links, ck;
      t', d' := MoveBig(e, src, dst, k, val, ctx, t1, d1);
      MovedTwice(bodies, h0, c0, h1, c1, links, ck, Move(src, dst, ctx, t, d, t1, d1),
        Move(src, dst, ctx, t1, d1, t', d'), Matching(bodies, Ptrs(t.small), collisionBits, k, val),
        Matching(bodies, Ptrs(t.big), collisionBits, k, val));
    }

    // ---------------------------------------------------------------- KINDEX and element areas

    constructor (areas: Areas, maskBits: nat, collisionBits: nat, maxMaskBits: nat, maxElementCount: nat)
      requires areas.Valid() && areas.count == 0
      requires 2 <= maskBits
      modifies areas, areas.table
      ensures Valid() && this.areas == areas && areas.count == 3 && NoPagesAdded(old(areas.used), areas.used)
      ensures loc == map[] && held == {} && this.maskBits == maskBits
      ensures
        && this.collisionBits == collisionBits && this.maxMaskBits == maxMaskBits
        && this.maxElementCount == maxElementCount
    {
      this.areas := areas;
      this.maskBits, this.collisionBits := maskBits, collisionBits;
      this.maxMaskBits, this.maxElementCount := maxMaskBits, maxElementCount;
      links, bodies, ck, assign := map[], map[], map[], map[];
      pfreeElements, freeElementCount := NULL, 0;
      trees, loc, free, held := map[], map[], [], {};
      new;
      MakeKeyIndex();
      MakeElements();
    }

    /** The areas and arrays for the KINDEXs and their CKINDEXs of a new file. */
    method MakeKeyIndex()
      requires areas.Valid() && areas.count == 0 && 2 <= maskBits
      requires assign == map[] && ck == map[] && loc == map[] && links == map[] && bodies == map[]
      modifies this`assign, this`ck, this`trees, areas, areas.table
      ensures areas.Valid() && areas.count == 2 && NoPagesAdded(old(areas.used), areas.used)
      ensures Indexed(bodies, links, ck, assign, maskBits, collisionBits, trees, loc)
    {
      var ok, start := areas.ExpandArea(KINDEX, KINDEX_SIZE * Pow2(maskBits));
      ok, start := areas.ExpandArea(CKINDEX, CKINDEX_SIZE * (Pow2(maskBits) * Pow2(collisionBits)));
      InitializeKeyIndexArrays();
      trees := map cp | cp in ck :: Nil;
      IndexedEmpty(ck, assign, maskBits, collisionBits, trees);
    }

    /** The area for the first ELEMENTs of a new file. */
    method MakeElements()
      requires areas.Valid() && areas.count == 2
      requires
        && loc == map[] && links == map[] && bodies == map[] && free == [] && held == {} && pfreeElements == NULL
        && freeElementCount == 0
      requires Indexed(bodies, links, ck, assign, maskBits, collisionBits, trees, loc)
      modifies this`links, this`bodies, this`pfreeElements, this`freeElementCount, this`free, areas, areas.table
      ensures Valid() && areas.count == 3 && NoPagesAdded(old(areas.used), areas.used)
    {
      KeptIs(map[], map[], map[], [], {}, NULL, areas.used);
      ghost var used := areas.used;
      var count := Pow2(maskBits) * Pow2(collisionBits) * ELEMENT_CNT_RATIO;
      var ok, start := areas.ExpandArea(PAGELIST, ELEMENT_SIZE * count);
      LinkElementArea(start, count, used);
      IndexedFrame(map[], bodies, map[], links, ck, assign, maskBits, collisionBits, trees, loc);
    }

    /** Adds the KINDEX arrays of every bit length up to that of the mask, all in use. */
    method InitializeKeyIndexArrays()
      requires assign == map[] && ck == map[]
      modifies this`assign, this`ck
      ensures forall pos :: pos in assign <==> Allocated(pos, maskBits)
      ensures forall pos | pos in assign :: assign[pos]
      ensures CKAllocated(ck, maskBits, collisionBits)
      ensures forall cp | cp in ck :: ck[cp] == CKIndex(0, NULL)
    {
      var bitcnt := 0;
      while bitcnt <= maskBits
        invariant 0 <= bitcnt <= maskBits + 1
        invariant forall pos :: pos in assign <==> pos.ptrPos < bitcnt && pos.arrPos < ArraySize(pos.ptrPos)
        invariant forall pos | pos in assign :: assign[pos]
        invariant forall cp :: cp in ck <==> cp.pos in assign && cp.ckpos < Pow2(collisionBits)
        invariant forall cp | cp in ck :: ck[cp] == CKIndex(0, NULL)
      {
        InitializeKeyIndexArray(bitcnt, true);
        bitcnt := bitcnt + 1;
      }
    }

    /** Adds the KINDEX array of the values of ptrPos bits, with the CKINDEXs of its slots. */
    method InitializeKeyIndexArray(ptrPos: nat, inUse: bool)
      modifies this`assign, this`ck
      ensures forall pos :: pos in assign <==> pos in old(assign) || InArray(pos, ptrPos)
      ensures forall pos | pos in assign :: assign[pos] == if InArray(pos, ptrPos) then inUse else old(assign)[pos]
      ensures forall cp :: cp in ck <==> cp in old(ck) || (InArray(cp.pos, ptrPos) && cp.ckpos < Pow2(collisionBits))
      ensures forall cp | cp in ck ::
        ck[cp] == if InArray(cp.pos, ptrPos) && cp.ckpos < Pow2(collisionBits) then CKIndex(0, NULL) else old(ck)[cp]
    {
      var arrPos := 0;
      while arrPos < ArraySize(ptrPos)
        invariant 0 <= arrPos <= ArraySize(ptrPos)
        invariant forall pos :: pos in assign <==> pos in old(assign) || (pos.ptrPos == ptrPos && pos.arrPos < arrPos)
        invariant forall pos | pos in assign ::
          assign[pos] == if pos.ptrPos == ptrPos && pos.arrPos < arrPos then inUse else old(assign)[pos]
        invariant forall cp ::
          cp in ck <==>
            cp in old(ck) || (cp.pos.ptrPos == ptrPos && cp.pos.arrPos < arrPos && cp.ckpos < Pow2(collisionBits))
        invariant forall cp | cp in ck ::
          ck[cp] ==
            if cp.pos.ptrPos == ptrPos && cp.pos.arrPos < arrPos && cp.ckpos < Pow2(collisionBits) then CKIndex(0, NULL)
            else old(ck)[cp]
      {
        assign := assign[KPos(ptrPos, arrPos) := inUse];
        InitializeCollisionKeyIndexArray(KPos(ptrPos, arrPos));
        arrPos := arrPos + 1;
      }
    }

    /** Makes the CKINDEXs of one slot empty. */
    method InitializeCollisionKeyIndexArray(pos: KPos)
      modifies this`ck
      ensures forall cp :: cp in ck <==> cp in old(ck) || (cp.pos == pos && cp.ckpos < Pow2(collisionBits))
      ensures forall cp | cp in ck ::
        ck[cp] == if cp.pos == pos && cp.ckpos < Pow2(collisionBits) then CKIndex(0, NULL) else old(ck)[cp]
    {
      var ckpos := 0;
      while ckpos < Pow2(collisionBits)
        invariant 0 <= ckpos <= Pow2(collisionBits)
        invariant forall cp :: cp in ck <==> cp in old(ck) || (cp.pos == pos && cp.ckpos < ckpos)
        invariant forall cp | cp in ck ::
          ck[cp] == if cp.pos == pos && cp.ckpos < ckpos then CKIndex(0, NULL) else old(ck)[cp]
      {
        ck := ck[CKPtr(pos, ckpos) := CKIndex(0, NULL)];
        ckpos := ckpos + 1;
      }
    }

    /** Links the ELEMENTs of a new area to each other and the last of them to `last`. */
    method InitializeElementArray(start: Ptr, count: nat, last: Ptr)
      requires forall p | p in Slots(start, count) :: p !in links
      requires Distinct(Slots(start, count))
      requires forall p :: p in links <==> p in bodies
      modifies this`links, this`bodies
      ensures forall p :: p in links <==> p in old(links) || p in Slots(start, count)
      ensures forall p :: p in links <==> p in bodies
      ensures forall p | p in old(links) :: links[p] == old(links)[p] && bodies[p] == old(bodies)[p]
      ensures forall p | p in Slots(start, count) :: p in bodies && bodies[p] == CLEARED_BODY
      ensures forall i | 0 <= i < count :: LinkedAt(links, Slots(start, count), i, last)
    {
      ghost var slots, h0, b0 := Slots(start, count), links, bodies;
      NoneMade(h0, b0, slots, last);
      var pos := 0;
      while pos < count
        invariant 0 <= pos <= count && ElementsMade(h0, b0, links, bodies, slots, pos, last)
      {
        ghost var h, b := links, bodies;
        InitializeElement(start + pos * ELEMENT_SIZE,
          if pos == 0 then NULL else start + pos * ELEMENT_SIZE - ELEMENT_SIZE,
          if pos + 1 < count then start + pos * ELEMENT_SIZE + ELEMENT_SIZE else last);
        assert slots[pos] in slots;
        OneMoreMade(h0, b0, h, b, links, bodies, slots, pos, last);
        pos := pos + 1;
      }
      AllMade(h0, b0, links, bodies, slots, last);
    }

    /** An ELEMENT without key between two others of the list. */
    method InitializeElement(p: Ptr, parent: Ptr, same: Ptr)
      modifies this`links, this`bodies
      ensures links == old(links)[p := Links(NULL, NULL, parent, same)] && bodies == old(bodies)[p := CLEARED_BODY]
    {
      links := links[p := Links(NULL, NULL, parent, same)];
      bodies := bodies[p := CLEARED_BODY];
    }

    /** Adds an area of ELEMENTs in front of the free list; fails when the areas array is full. */
    method ExpandElementArea() returns (ok: bool)
      requires Valid()
      modifies this`links, this`bodies, this`pfreeElements, this`freeElementCount, this`free, areas, areas.table
      ensures Valid() && NoPagesAdded(old(areas.used), areas.used)
      ensures ok <==> old(areas.count) < MAX_K2HAREA_COUNT
      ensures areas.count == if ok then old(areas.count) + 1 else old(areas.count)
      ensures ok ==> pfreeElements != NULL
      ensures !ok ==> free == old(free) && links == old(links)
      ensures forall p | p in old(bodies) :: p in bodies && bodies[p] == old(bodies)[p]
    {
      var count := Pow2(maskBits) * Pow2(collisionBits) * ELEMENT_CNT_RATIO;
      if MAX_EXPAND_ELEMENT_CNT < count {
        count := MAX_EXPAND_ELEMENT_CNT;
      }
      var start;
      ok, start := areas.ExpandArea(PAGELIST, ELEMENT_SIZE * count);
      if !ok {
        KeptWider(bodies, links, loc, free, held, pfreeElements, old(areas.used), areas.used);
        return;
      }
      LinkElementArea(start, count, old(areas.used));
      IndexedFrame(old(bodies), bodies, old(links), links, ck, assign, maskBits, collisionBits, trees, loc);
    }

    /** Puts the count ELEMENTs from start on in front of the free list. */
    method LinkElementArea(start: Ptr, count: nat, ghost used: seq<Area>)
      requires Kept(bodies, links, loc, free, held, pfreeElements, used) && EndBy(used, start) && 0 < start && 0 < count
      modifies this`links, this`bodies, this`pfreeElements, this`freeElementCount, this`free
      ensures Kept(bodies, links, loc, free, held, pfreeElements, used + [Area(PAGELIST, start, ELEMENT_SIZE * count)])
      ensures free == Slots(start, count) + old(free) && freeElementCount == old(freeElementCount) + count
      ensures Untouched(old(bodies), old(links), bodies, links, loc)
      ensures forall p | p in old(bodies) :: p in bodies && bodies[p] == old(bodies)[p]
      ensures pfreeElements == start && start != NULL
    {
      ghost var b, h := bodies, links;
      KeptIs(b, h, loc, free, held, pfreeElements, used);
      SlotsFresh(h, start, count, used);
      InitializeElementArray(start, count, pfreeElements);
      KeptExpanded(b, h, bodies, links, loc, free, held, pfreeElements, start, count, used);
      if pfreeElements != NULL {
        links := links[pfreeElements := links[pfreeElements].(parent := start + (count - 1) * ELEMENT_SIZE)];
      }
      free := Slots(start, count) + free;
      pfreeElements := start;
      freeElementCount := freeElementCount + count;
    }

    // ---------------------------------------------------------------- arranging KINDEXs

    /** Moves every element below src that matches the target to dst. */
    method MoveAll(src: CKPtr, dst: CKPtr, k: nat, val: nat)
      requires Planted(bodies, links, ck, trees, loc) && Compatible(bodies, loc)
      requires src != dst && src in trees && dst in trees && src in ck && ck[src].elementList != NULL
      modifies this`links, this`ck, this`trees, this`loc
      ensures Planted(bodies, links, ck, trees, loc)
      ensures loc == PlacesMoved(old(loc), Matching(bodies, Ptrs(old(trees)[src]), collisionBits, k, val), dst)
      ensures forall cp :: cp in trees <==> cp in old(trees)
      ensures forall cp :: cp in ck <==> cp in old(ck)
      ensures Rearranged(old(links), links, old(loc), loc)
    {
      assert Look(BETWEEN, 0);
      ghost var h, c, t, d := links, ck, trees[src], trees[dst];
      BothPlanted(bodies, h, c, trees, loc, src, dst);
      CompatibleTree(bodies, h, c, trees, loc, src);
      RootNonNull(bodies, t);
      ghost var t', d' := MoveElementToUpperMask(ck[src].elementList, src, dst, k, val, Top, t, d);
      ghost var v, m := Move(src, dst, Top, t, d, t', d'), Matching(bodies, Ptrs(t), collisionBits, k, val);
      MovedPlanted(bodies, h, c, links, ck, trees, loc, v, m);
      MovedKeys(bodies, h, c, links, ck, trees, loc, v, m);
      trees, loc := trees[src := t'][dst := d'], PlacesMoved(loc, m, dst);
    }

    /** Brings CKINDEX i of the slot under k-1 bits of the hash up to date with the slot under k bits. */
    method ArrangeOne(hash: nat, k: nat, lower: KPos, upper: KPos, i: nat, ghost h0: LinkHeap, ghost loc0: Places)
      requires 0 < k && i < Pow2(collisionBits)
      requires
        && lower == PosOf(Low(Shift(hash, collisionBits), k - 1)) && upper == PosOf(Low(Shift(hash, collisionBits), k))
      requires Arranging(bodies, h0, links, ck, assign, maskBits, collisionBits, trees, Shift(hash, collisionBits), k,
          loc0, loc, i)
      modifies this`links, this`ck, this`trees, this`loc
      ensures Arranging(bodies, h0, links, ck, assign, maskBits, collisionBits, trees, Shift(hash, collisionBits), k,
        loc0, loc, i + 1)
    {
      ghost var s, h, c, trees0, loc1 := Shift(hash, collisionBits), links, ck, trees, loc;
      ArrangingIs(bodies, h0, h, c, assign, maskBits, collisionBits, trees, s, k, loc0, loc, i);
      PlantedPtrs(bodies, links, ck, trees, loc, CKPtr(lower, i));
      if ck[CKPtr(lower, i)].elementList == NULL {
        PlantedNull(bodies, links, ck, trees, loc, CKPtr(lower, i));
        ArrangedEmpty(bodies, collisionBits, loc, s, k, i, loc0);
      } else {
        ArrangedStep(bodies, collisionBits, s, k, loc0, i, trees[CKPtr(lower, i)]);
        MoveAll(CKPtr(lower, i), CKPtr(upper, i), k, Low(Shift(hash, collisionBits), k));
      }
      ArrangingOn(bodies, h0, h, c, links, ck, assign, maskBits, collisionBits, trees0, trees, s, k, loc0, loc1, loc,
        i);
    }

    /** The loop of ArrangeToUpperKIndex over the CKINDEXs of two slots. */
    method ArrangeLists(hash: nat, k: nat, lower: KPos, upper: KPos)
      requires Indexed(bodies, links, ck, assign, maskBits, collisionBits, trees, loc)
      requires 1 <= k <= maskBits && lower != upper
      requires
        && lower == PosOf(Low(Shift(hash, collisionBits), k - 1)) && upper == PosOf(Low(Shift(hash, collisionBits), k))
      modifies this`links, this`ck, this`trees, this`loc
      ensures Arranging(bodies, old(links), links, ck, assign, maskBits, collisionBits, trees,
        Shift(hash, collisionBits), k, old(loc), loc, Pow2(collisionBits))
    {
      ghost var h0, loc0 := links, loc;
      ArrangingStarts(bodies, links, ck, assign, maskBits, collisionBits, trees, Shift(hash, collisionBits), k, loc);
      var ckpos := 0;
      while ckpos < Pow2(collisionBits)
        invariant 0 <= ckpos <= Pow2(collisionBits)
        invariant Arranging(bodies, h0, links, ck, assign, maskBits, collisionBits, trees, Shift(hash, collisionBits),
          k, loc0, loc, ckpos)
      {
        ArrangeOne(hash, k, lower, upper, ckpos, h0, loc0);
        ckpos := ckpos + 1;
      }
      assert ckpos == Pow2(collisionBits);
    }

    /**
     Brings the slot of the hash under the mask of k bits into use, and before it those under the
     narrower masks: each takes over its elements from the slot one bit narrower.
     */
    method ArrangeToUpperKIndex(hash: nat, k: nat)
      requires Indexed(bodies, links, ck, assign, maskBits, collisionBits, trees, loc)
      modifies this`links, this`ck, this`assign, this`trees, this`loc
      ensures Indexed(bodies, links, ck, assign, maskBits, collisionBits, trees, loc)
      ensures 1 <= k <= maskBits ==> Assigned(assign, Low(Shift(hash, collisionBits), k))
      ensures Rearranged(old(links), links, old(loc), loc)
      ensures Finer(old(assign), maskBits, assign, maskBits, collisionBits)
      decreases k
    {
      ghost var s := Shift(hash, collisionBits);
      IndexedIs(bodies, links, ck, assign, maskBits, collisionBits, trees, loc);
      FinerSame(assign, maskBits, collisionBits);
      RearrangedSame(links, loc);
      if k < 2 {
        FirstBitAssigned(assign, maskBits, s);
        return;
      }
      if maskBits < k {
        return;
      }
      ArrangeToUpperKIndex(hash, k - 1);
      var ok, ptrPos, arrPos := GetKIndexPos(hash, collisionBits, maskBits, k);
      var upper := KPos(ptrPos, arrPos);
      ok, ptrPos, arrPos := GetKIndexPos(hash, collisionBits, maskBits, k - 1);
      var lower := KPos(ptrPos, arrPos);
      PosInjective(Low(s, k), Low(s, k - 1));
      if upper == lower {
        return;
      }
      ghost var h0, loc0 := links, loc;
      ArrangeLists(hash, k, lower, upper);
      ArrangingIs(bodies, h0, links, ck, assign, maskBits, collisionBits, trees, s, k, loc0, loc, Pow2(collisionBits));
      RearrangedTwice(old(links), h0, links, old(loc), loc0, loc);
      FinerAssigned(assign, maskBits, collisionBits, s, k);
      FinerTwice(old(assign), maskBits, assign, maskBits, Assign(assign, Low(s, k)), maskBits, collisionBits);
      SlotArranged(bodies, links, ck, assign, maskBits, collisionBits, trees, s, k, loc0, loc);
      if !assign[upper] {
        assign := assign[upper := true];
      }
    }

    // ---------------------------------------------------------------- looking elements up

    /**
     The KINDEX of a hash: the slot of the widest mask whose slot is in use.  A merging lookup
     first brings the slot of the whole mask into use.
     */
    method GetKIndex(hash: nat, isMergeCurmask: bool) returns (pos: KPos)
      requires Indexed(bodies, links, ck, assign, maskBits, collisionBits, trees, loc)
      modifies this`links, this`ck, this`assign, this`trees, this`loc
      ensures Indexed(bodies, links, ck, assign, maskBits, collisionBits, trees, loc)
      ensures Rearranged(old(links), links, old(loc), loc)
      ensures Finer(old(assign), maskBits, assign, maskBits, collisionBits)
      ensures pos == HomePtr(assign, maskBits, collisionBits, hash).pos
      ensures isMergeCurmask ==> Assigned(assign, Low(Shift(hash, collisionBits), maskBits))
      ensures !isMergeCurmask || old(Assigned(assign, Low(Shift(hash, collisionBits), maskBits))) ==>
        links == old(links) && ck == old(ck) && assign == old(assign) && trees == old(trees) && loc == old(loc)
      decreases isMergeCurmask
    {
      ghost var s := Shift(hash, collisionBits);
      IndexedIs(bodies, links, ck, assign, maskBits, collisionBits, trees, loc);
      var k := maskBits;
      while 0 < k
        invariant 0 <= k <= maskBits
        invariant forall i | k < i <= maskBits :: !Assigned(assign, Low(s, i))
        invariant isMergeCurmask ==> k == maskBits
        invariant
          && links == old(links) && ck == old(ck) && assign == old(assign) && trees == old(trees) && loc == old(loc)
      {
        var ok, ptrPos, arrPos := GetKIndexPos(hash, collisionBits, maskBits, k);
        pos := KPos(ptrPos, arrPos);
        if assign[pos] {
          HomeFound(assign, s, maskBits, k);
          RearrangedSame(links, loc);
          FinerSame(assign, maskBits, collisionBits);
          return;
        } else if isMergeCurmask {
          ArrangeToUpperKIndex(hash, maskBits);
          pos := GetKIndex(hash, false);
          return;
        }
        k := k - 1;
      }
      FirstBitAssigned(assign, maskBits, s);
      assert false;
    }

    /** The CKINDEX of a hash. */
    method GetCKIndex(hash: nat, isMergeCurmask: bool) returns (cp: CKPtr)
      requires Indexed(bodies, links, ck, assign, maskBits, collisionBits, trees, loc)
      modifies this`links, this`ck, this`assign, this`trees, this`loc
      ensures Indexed(bodies, links, ck, assign, maskBits, collisionBits, trees, loc)
      ensures Rearranged(old(links), links, old(loc), loc)
      ensures Finer(old(assign), maskBits, assign, maskBits, collisionBits)
      ensures cp == HomePtr(assign, maskBits, collisionBits, hash) && cp in ck && cp in trees
      ensures isMergeCurmask ==> Assigned(assign, Low(Shift(hash, collisionBits), maskBits))
      ensures !isMergeCurmask || old(Assigned(assign, Low(Shift(hash, collisionBits), maskBits))) ==>
        links == old(links) && ck == old(ck) && assign == old(assign) && trees == old(trees) && loc == old(loc)
    {
      var pos := GetKIndex(hash, isMergeCurmask);
      cp := CKPtr(pos, Low(hash, collisionBits));
      IndexedIs(bodies, links, ck, assign, maskBits, collisionBits, trees, loc);
      HomePtrAllocated(assign, maskBits, collisionBits, hash, ck);
    }

    /** The head of the chain with these hashes below `top`, the root of t. */
    method GetElementList(top: Ptr, hash: nat, subhash: nat, ghost parent: Ptr, ghost t: Tree) returns (e: Ptr)
      requires top == RootPtr(t) && Ordered(bodies, t) && Linked(links, parent, t)
      ensures
        var f := FoundChain(bodies, t, hash, subhash);
        e == if f == [] then NULL else f[0]
      decreases t
    {
      RootNonNull(bodies, t);
      if top == NULL {
        return NULL;
      }
      RootNonNull(bodies, t.small);
      RootNonNull(bodies, t.big);
      LinkedIn(links, parent, t);
      if subhash == bodies[top].subhash {
        return if hash != bodies[top].hash then NULL else top;
      } else if subhash < bodies[top].subhash {
        if links[top].small == NULL {
          return NULL;
        }
        e := GetElementList(links[top].small, hash, subhash, top, t.small);
      } else {
        if links[top].big == NULL {
          return NULL;
        }
        e := GetElementList(links[top].big, hash, subhash, top, t.big);
      }
    }

    /** The head of the chain of the live elements with these hashes, null when there is none. */
    method GetElementListOf(cp: CKPtr, hash: nat, subhash: nat) returns (e: Ptr, ghost chain: seq<Ptr>)
      requires Indexed(bodies, links, ck, assign, maskBits, collisionBits, trees, loc)
      requires cp == HomePtr(assign, maskBits, collisionBits, hash) && cp in ck
      ensures forall p :: p in chain <==> Live(p, hash, subhash)
      ensures if e == NULL then chain == [] else SameLinked(links, chain) && NULL !in chain && e == chain[0]
    {
      IndexedIs(bodies, links, ck, assign, maskBits, collisionBits, trees, loc);
      RootedIs(bodies, links, ck, cp, trees[cp], loc);
      ghost var t := trees[cp];
      chain := FoundChain(bodies, t, hash, subhash);
      CompatibleTree(bodies, links, ck, trees, loc, cp);
      FoundExactly(bodies, t, hash, subhash);
      FoundLive(bodies, t, loc, cp, assign, maskBits, collisionBits, hash, subhash);
      if chain != [] {
        FoundLinked(bodies, links, NULL, t, hash, subhash);
      }
      if ck[cp].elementCount == 0 {
        CountZero(bodies, t);
        return NULL, chain;
      }
      e := GetElementList(ck[cp].elementList, hash, subhash, NULL, t);
    }

    // ---------------------------------------------------------------- single elements

    /** Takes the first free ELEMENT, adding an area when there is none; null when that fails. */
    method ReserveElement() returns (e: Ptr)
      requires Valid()
      modifies this`links, this`bodies, this`pfreeElements, this`freeElementCount, this`free, this`held, areas
      modifies areas.table
      ensures Valid() && NoPagesAdded(old(areas.used), areas.used)
      ensures e == NULL <==> old(pfreeElements) == NULL && old(areas.count) == MAX_K2HAREA_COUNT
      ensures held == if e == NULL then old(held) else old(held) + {e}
      ensures e != NULL ==> e !in loc && e !in old(held) && e in bodies
      ensures forall p | p in old(bodies) :: p in bodies && bodies[p] == old(bodies)[p]
      ensures e == NULL ==> areas.count == MAX_K2HAREA_COUNT
      ensures areas.count <= old(areas.count) + 1
    {
      if pfreeElements == NULL {
        var ok := ExpandElementArea();
        if !ok {
          return NULL;
        }
      }
      e := UnlinkFirst();
    }

    /** The link part of ReserveElement. */
    method UnlinkFirst() returns (e: Ptr)
      requires Valid() && pfreeElements != NULL
      modifies this`links, this`pfreeElements, this`freeElementCount, this`free, this`held
      ensures Valid()
      ensures e == old(pfreeElements) && e != NULL && e !in loc && e !in old(held) && e in bodies
      ensures held == old(held) + {e}
    {
      e := pfreeElements;
      ghost var h := links;
      KeptReserved(bodies, h, loc, free, held, e, areas.used);
      IndexedFrame(bodies, bodies, h, Unlinked(h, e), ck, assign, maskBits, collisionBits, trees, loc);
      var next := links[e].same;
      if next != NULL {
        links := links[next := links[next].(parent := NULL)];
      }
      links := links[e := CLEARED];
      assert links == Unlinked(h, e);
      pfreeElements := next;
      if 0 < freeElementCount {
        freeElementCount := freeElementCount - 1;
      }
      free, held := free[1..], held + {e};
    }

    /** Puts an ELEMENT that is in no tree in front of the free list. */
    method PutBackElement(e: Ptr)
      requires Valid() && e in held
      modifies this`links, this`bodies, this`pfreeElements, this`freeElementCount, this`free, this`held
      ensures Valid()
      ensures held == old(held) - {e} && free == [e] + old(free)
      ensures forall p :: p in bodies <==> p in old(bodies)
      ensures forall p | p in bodies && p != e :: bodies[p] == old(bodies)[p]
    {
      ghost var h, b := links, bodies;
      KeptHeld(b, h, loc, free, held, pfreeElements, areas.used, e);
      bodies := bodies[e := bodies[e].(hash := 0, subhash := 0, key := NULL, value := NULL, subkeys := NULL)];
      KeptPutBack(b, h, bodies, loc, free, held, pfreeElements, areas.used, e);
      IndexedFrame(b, bodies, h, LinkedBack(h, pfreeElements, e), ck, assign, maskBits, collisionBits, trees, loc);
      ghost var h' := LinkedBack(h, pfreeElements, e);
      if pfreeElements != NULL {
        links := links[pfreeElements := links[pfreeElements].(parent := e)];
      }
      links := links[e := Links(NULL, NULL, NULL, pfreeElements)];
      assert links == h';
      pfreeElements := e;
      freeElementCount := freeElementCount + 1;
      SettleFree([e] + free, held - {e});
    }

    /** Notes the free list and the ELEMENTs held, of which everything is known. */
    ghost method SettleFree(free': seq<Ptr>, held': set<Ptr>)
      requires Indexed(bodies, links, ck, assign, maskBits, collisionBits, trees, loc)
      requires
        && Kept(bodies, links, loc, free', held', pfreeElements, areas.used) && freeElementCount == |free'|
        && areas.Valid()
      modifies this`free, this`held
      ensures Valid() && free == free' && held == held'
    {
      free, held := free', held';
    }

    /** Writes the members other than the links; those of a live ELEMENT keep its hashes. */
    method WriteBody(e: Ptr, body: Body)
      requires Valid() && e in bodies && (e in loc || e in held)
      requires e in loc ==> body.hash == bodies[e].hash && body.subhash == bodies[e].subhash
      modifies this`bodies
      ensures Valid() && bodies == old(bodies)[e := body]
    {
      ghost var b := bodies;
      bodies := bodies[e := body];
      KeptWritten(b, bodies, links, loc, free, held, pfreeElements, areas.used, e);
      IndexedFrame(b, bodies, links, links, ck, assign, maskBits, collisionBits, trees, loc);
    }

    /**
     Puts a held ELEMENT below the CKINDEX its hash belongs to.  No element there may have
     its subhash with another hash.
     */
    method HangElement(cp: CKPtr, e: Ptr)
      requires Valid() && e in held
      requires e in bodies && cp == HomePtr(assign, maskBits, collisionBits, bodies[e].hash) && cp in ck
      requires Joinable(bodies, loc, cp, e)
      modifies this`links, this`ck, this`trees, this`loc, this`held
      ensures Valid()
      ensures loc == old(loc)[e := cp] && held == old(held) - {e} && cp in ck
    {
      ghost var h, c := links, ck;
      KeptHeld(bodies, h, loc, free, held, pfreeElements, areas.used, e);
      IndexedHolds(bodies, h, c, assign, maskBits, collisionBits, trees, loc, cp, e);
      ghost var trees', loc', held' := trees[cp := AddTree(bodies, trees[cp], e)], loc[e := cp], held - {e};
      PutElement(cp, e, trees[cp]);
      IndexedAdded(bodies, h, c, links, ck, assign, maskBits, collisionBits, trees, loc, cp, e);
      KeptHung(bodies, h, links, loc, free, held, pfreeElements, areas.used, cp, e, Ptrs(trees[cp]));
      Settle(trees', loc', held');
    }

    /** Notes the trees and where all elements are, of which everything is known. */
    ghost method Settle(trees': Trees, loc': Places, held': set<Ptr>)
      requires Indexed(bodies, links, ck, assign, maskBits, collisionBits, trees', loc')
      requires
        && Kept(bodies, links, loc', free, held', pfreeElements, areas.used) && freeElementCount == |free|
        && areas.Valid()
      modifies this`trees, this`loc, this`held
      ensures Valid() && trees == trees' && loc == loc' && held == held'
    {
      trees, loc, held := trees', loc', held';
    }

    /**
     Takes a live element out of its tree.  The index is whole again exactly when the element was
     not stranding subtrees.
     */
    method TakeLiveElement(cp: CKPtr, e: Ptr) returns (ghost s: set<Ptr>)
      requires Indexed(bodies, links, ck, assign, maskBits, collisionBits, trees, loc)
      requires e in loc && loc[e] == cp && e in links
      modifies this`links, this`ck, this`trees, this`loc
      ensures Indexed(bodies, links, ck, assign, maskBits, collisionBits, trees, loc) <==> !Stranding(old(links)[e])
      ensures loc == old(loc) - {e}
      ensures SameOutside(old(links), links, s) && (forall p | p in s :: p in old(loc))
      ensures e in links && links[e] == CLEARED && e != NULL
    {
      ghost var h, c := links, ck;
      ghost var ctx, sub := IndexedTakeable(bodies, h, c, assign, maskBits, collisionBits, trees, loc, cp, e);
      TakeOffElement(cp, e, ctx, sub);
      IndexedTaken(bodies, h, c, links, assign, maskBits, collisionBits, trees, loc, cp, e, ctx, sub);
      s := Ptrs(trees[cp]);
      trees := trees[cp := Plug(ctx, TakeNode(bodies, sub, e, ctx.BigOf?))];
      loc := loc - {e};
    }

    /** Takes a live element out of its tree; it is held then. */
    method UnhangElement(cp: CKPtr, e: Ptr)
      requires Valid() && e in loc && loc[e] == cp && e in links
      modifies this`links, this`ck, this`trees, this`loc, this`held
      ensures Valid() <==> !Stranding(old(links)[e])
      ensures loc == old(loc) - {e} && held == old(held) + {e}
    {
      ghost var h, loc0 := links, loc;
      ghost var s := TakeLiveElement(cp, e);
      KeptUnhung(bodies, h, links, loc0, free, held, pfreeElements, areas.used, e, s);
      held := held + {e};
      assert Valid() <==> Indexed(bodies, links, ck, assign, maskBits, collisionBits, trees, loc);
    }

    // ---------------------------------------------------------------- widening the mask

    /** The areas for the KINDEXs of one more mask bit and for their CKINDEXs. */
    method ReserveKIndexAreas() returns (ok: bool)
      requires Valid()
      modifies areas, areas.table
      ensures Valid() && NoPagesAdded(old(areas.used), areas.used) && areas.count <= old(areas.count) + 2
      ensures ok <==> old(areas.count) + 2 <= MAX_K2HAREA_COUNT
    {
      var start;
      ok, start := areas.ExpandArea(CKINDEX, CKINDEX_SIZE * (Pow2(maskBits) * Pow2(collisionBits)));
      if ok {
        ok, start := areas.ExpandArea(KINDEX, KINDEX_SIZE * Pow2(maskBits));
      }
      KeptWider(bodies, links, loc, free, held, pfreeElements, old(areas.used), areas.used);
    }

    /** The slots of one more mask bit, and their CKINDEXs. */
    method AddSlots()
      modifies this`ck, this`assign
      ensures Widened(old(ck), ck, old(assign), assign, maskBits, collisionBits)
    {
      InitializeKeyIndexArray(maskBits + 1, false);
    }

    /** One more mask bit, whose slots are empty and not in use. */
    method WidenMask()
      requires Indexed(bodies, links, ck, assign, maskBits, collisionBits, trees, loc)
      modifies this`ck, this`assign, this`maskBits, this`trees
      ensures Indexed(bodies, links, ck, assign, maskBits, collisionBits, trees, loc)
      ensures maskBits == old(maskBits) + 1
      ensures SameHomes(old(assign), old(maskBits), assign, maskBits, collisionBits)
    {
      ghost var c, ka := ck, assign;
      AddSlots();
      maskBits := maskBits + 1;
      SettleWidened(c, ka, maskBits - 1);
    }

    /** The CKINDEXs of the new slots have no elements. */
    ghost method SettleWidened(c: CKHeap, ka: AssignMap, n: nat)
      requires maskBits == n + 1 && Indexed(bodies, links, c, ka, n, collisionBits, trees, loc)
      requires Widened(c, ck, ka, assign, n, collisionBits)
      modifies this`trees
      ensures Indexed(bodies, links, ck, assign, n + 1, collisionBits, trees, loc)
      ensures SameHomes(ka, n, assign, n + 1, collisionBits)
    {
      ghost var below := TreesBelow(trees, ck);
      IndexedExpanded(bodies, links, c, ck, ka, assign, n, collisionBits, trees, below, loc);
      trees := below;
    }

    /** Doubles the KINDEXs; fails, with nothing changed but the areas, when the areas array is full. */
    method ExpandKIndexArea() returns (ok: bool)
      requires Valid()
      modifies this`ck, this`assign, this`maskBits, this`trees, areas, areas.table
      ensures Valid() && NoPagesAdded(old(areas.used), areas.used) && areas.count <= old(areas.count) + 2
      ensures ok <==> old(areas.count) + 2 <= MAX_K2HAREA_COUNT
      ensures maskBits == if ok then old(maskBits) + 1 else old(maskBits)
      ensures SameHomes(old(assign), old(maskBits), assign, maskBits, collisionBits)
    {
      ok := ReserveKIndexAreas();
      if ok {
        WidenMask();
      }
    }

    /** Widens the mask when a CKINDEX has too many elements and the mask may grow. */
    method CheckExpandingKeyArea(cp: CKPtr) returns (ok: bool)
      requires Valid() && cp in ck
      modifies this`ck, this`assign, this`maskBits, this`trees, areas, areas.table
      ensures Valid() && NoPagesAdded(old(areas.used), areas.used) && areas.count <= old(areas.count) + 2
      ensures
        var needed := old(ck)[cp].elementCount > maxElementCount && old(maskBits) < maxMaskBits;
        && (ok <==> !needed || old(areas.count) + 2 <= MAX_K2HAREA_COUNT)
        && (!ok ==> MAX_K2HAREA_COUNT <= areas.count + 1)
        && maskBits == if needed && ok then old(maskBits) + 1 else old(maskBits)
      ensures SameHomes(old(assign), old(maskBits), assign, maskBits, collisionBits)
    {
      if ck[cp].elementCount <= maxElementCount {
        return true;
      }
      if maxMaskBits <= maskBits {
        return true;
      }
      ok := ExpandKIndexArea();
    }
  }
}
