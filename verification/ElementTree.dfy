/**
 The binary tree of ELEMENTs that hangs below one CKINDEX, as a value.

 In the file the tree is intrusive: ELEMENTs point at each other through small,
 big, parent and same.  A `Tree` is what those links spell out: a node is a
 chain of elements with one subhash (linked through `same`) with the tree of the
 smaller subhashes and the tree of the bigger ones.  `Linked` ties a tree to
 the links, `Ordered` is the search order, and a `Ctx` is a tree with one
 subtree taken out, which is how an element in the middle is reached.
 */
module ElementTree {
  import opened Layout

  /** The members of an ELEMENT other than its links: hashes, page chains and their lengths. */
  datatype Body = Body(hash: nat, subhash: nat,
                       key: Ptr, value: Ptr, subkeys: Ptr, attrs: Ptr,
                       keylength: nat, vallength: nat, skeylength: nat, attrlength: nat)

  type BodyHeap = map<Ptr, Body>

  datatype Tree = Nil | Node(chain: seq<Ptr>, small: Tree, big: Tree)

  /** A tree with a hole in it, innermost step first. */
  datatype Ctx =
    | Top
    | SmallOf(chain: seq<Ptr>, big: Tree, up: Ctx)
    | BigOf(chain: seq<Ptr>, small: Tree, up: Ctx)

  function ChainSet(chain: seq<Ptr>): set<Ptr>
  {
    set p | p in chain
  }

  function Ptrs(t: Tree): set<Ptr>
  {
    match t
    case Nil => {}
    case Node(chain, small, big) => Ptrs(small) + ChainSet(chain) + Ptrs(big)
  }

  function Size(t: Tree): nat
  {
    match t
    case Nil => 0
    case Node(chain, small, big) => Size(small) + |chain| + Size(big)
  }

  /** The pointer a link to this tree holds. */
  function RootPtr(t: Tree): Ptr
  {
    if t.Node? && |t.chain| > 0 then t.chain[0] else NULL
  }

  function Plug(ctx: Ctx, t: Tree): Tree
  {
    match ctx
    case Top => t
    case SmallOf(chain, big, up) => Plug(up, Node(chain, t, big))
    case BigOf(chain, small, up) => Plug(up, Node(chain, small, t))
  }

  function CtxPtrs(ctx: Ctx): set<Ptr>
  {
    match ctx
    case Top => {}
    case SmallOf(chain, big, up) => ChainSet(chain) + Ptrs(big) + CtxPtrs(up)
    case BigOf(chain, small, up) => ChainSet(chain) + Ptrs(small) + CtxPtrs(up)
  }

  function CtxSize(ctx: Ctx): nat
  {
    match ctx
    case Top => 0
    case SmallOf(chain, big, up) => |chain| + Size(big) + CtxSize(up)
    case BigOf(chain, small, up) => |chain| + Size(small) + CtxSize(up)
  }

  /** The element whose link holds the hole, or null at the top. */
  function HoleParent(ctx: Ctx): Ptr
  {
    if ctx.Top? || |ctx.chain| == 0 then NULL else ctx.chain[0]
  }

  // ---------------------------------------------------------------- order

  ghost predicate ChainOrdered(b: BodyHeap, chain: seq<Ptr>)
  {
    && |chain| > 0
    && Distinct(chain)
    && (forall p | p in chain :: p != NULL && p in b)
    && (forall p | p in chain :: b[p].subhash == b[chain[0]].subhash)
  }

  ghost predicate AllBelow(b: BodyHeap, s: set<Ptr>, x: nat)
  {
    forall p | p in s :: p in b && b[p].subhash < x
  }

  ghost predicate AllAbove(b: BodyHeap, s: set<Ptr>, x: nat)
  {
    forall p | p in s :: p in b && x < b[p].subhash
  }

  ghost predicate Ordered(b: BodyHeap, t: Tree)
  {
    match t
    case Nil => true
    case Node(chain, small, big) =>
      var ordered :=
        && ChainOrdered(b, chain)
        && AllBelow(b, Ptrs(small), b[chain[0]].subhash)
        && AllAbove(b, Ptrs(big), b[chain[0]].subhash)
        && Ordered(b, small)
        && Ordered(b, big);
      ordered
  }

  /** Elements of s are on the hole's side of everything around the hole. */
  ghost predicate InRange(b: BodyHeap, ctx: Ctx, s: set<Ptr>)
  {
    match ctx
    case Top => true
    case SmallOf(chain, big, up) => ChainOrdered(b, chain) && AllBelow(b, s, b[chain[0]].subhash) && InRange(b, up, s)
    case BigOf(chain, small, up) => ChainOrdered(b, chain) && AllAbove(b, s, b[chain[0]].subhash) && InRange(b, up, s)
  }

  ghost predicate CtxOrdered(b: BodyHeap, ctx: Ctx)
  {
    match ctx
    case Top => true
    case SmallOf(chain, big, up) =>
      && ChainOrdered(b, chain)
      && AllAbove(b, Ptrs(big), b[chain[0]].subhash)
      && Ordered(b, big)
      && InRange(b, up, ChainSet(chain) + Ptrs(big))
      && CtxOrdered(b, up)
    case BigOf(chain, small, up) =>
      && ChainOrdered(b, chain)
      && AllBelow(b, Ptrs(small), b[chain[0]].subhash)
      && Ordered(b, small)
      && InRange(b, up, ChainSet(chain) + Ptrs(small))
      && CtxOrdered(b, up)
  }

  lemma OrderedIn(b: BodyHeap, t: Tree)
    requires Ordered(b, t)
    ensures forall p | p in Ptrs(t) :: p in b && p != NULL
    ensures Size(t) == |Ptrs(t)|
  {
    match t
    case Nil =>
    case Node(chain, small, big) =>
      OrderedIn(b, small);
      OrderedIn(b, big);
      ChainSize(chain);
      NodeDisjoint(b, t);
      assert |Ptrs(small) + ChainSet(chain)| == |Ptrs(small)| + |ChainSet(chain)|;
  }

  lemma RootNonNull(b: BodyHeap, t: Tree)
    requires Ordered(b, t)
    ensures t.Node? <==> RootPtr(t) != NULL
    ensures t.Node? ==> RootPtr(t) in Ptrs(t) && RootPtr(t) in b && RootPtr(t) == t.chain[0]
  {
    if t.Node? {
      assert t.chain[0] in ChainSet(t.chain);
    }
  }

  lemma NodeDisjoint(b: BodyHeap, t: Tree)
    requires t.Node? && Ordered(b, t)
    ensures Ptrs(t.small) !! ChainSet(t.chain) !! Ptrs(t.big)
  {
    assert forall p | p in ChainSet(t.chain) :: b[p].subhash == b[t.chain[0]].subhash;
  }

  lemma ChainSize(chain: seq<Ptr>)
    requires Distinct(chain)
    ensures |ChainSet(chain)| == |chain|
  {
    if chain != [] {
      var n := |chain| - 1;
      ChainSize(chain[..n]);
      assert ChainSet(chain) == ChainSet(chain[..n]) + {chain[n]};
    }
  }

  lemma InRangeUnion(b: BodyHeap, ctx: Ctx, s1: set<Ptr>, s2: set<Ptr>)
    ensures InRange(b, ctx, s1 + s2) <==> InRange(b, ctx, s1) && InRange(b, ctx, s2)
  {
    match ctx
    case Top =>
    case SmallOf(chain, big, up) => InRangeUnion(b, up, s1, s2);
    case BigOf(chain, small, up) => InRangeUnion(b, up, s1, s2);
  }

  lemma InRangeSubset(b: BodyHeap, ctx: Ctx, s1: set<Ptr>, s2: set<Ptr>)
    requires InRange(b, ctx, s2) && s1 <= s2
    ensures InRange(b, ctx, s1)
  {
    assert s1 + s2 == s2;
    InRangeUnion(b, ctx, s1, s2);
  }

  /** Order of a plugged tree, split into the part around the hole and the part in it. */
  lemma {:induction false} PlugOrdered(b: BodyHeap, ctx: Ctx, t: Tree)
    ensures Ordered(b, Plug(ctx, t)) <==> CtxOrdered(b, ctx) && Ordered(b, t) && InRange(b, ctx, Ptrs(t))
  {
    match ctx
    case Top =>
    case SmallOf(chain, big, up) =>
      PlugOrdered(b, up, Node(chain, t, big));
      InRangeUnion(b, up, Ptrs(t), ChainSet(chain) + Ptrs(big));
      assert Ptrs(Node(chain, t, big)) == Ptrs(t) + (ChainSet(chain) + Ptrs(big));
    case BigOf(chain, small, up) =>
      PlugOrdered(b, up, Node(chain, small, t));
      InRangeUnion(b, up, Ptrs(t), ChainSet(chain) + Ptrs(small));
      assert Ptrs(Node(chain, small, t)) == Ptrs(t) + (ChainSet(chain) + Ptrs(small));
  }

  lemma {:induction false} PlugPtrs(ctx: Ctx, t: Tree)
    ensures Ptrs(Plug(ctx, t)) == CtxPtrs(ctx) + Ptrs(t)
    ensures Size(Plug(ctx, t)) == CtxSize(ctx) + Size(t)
  {
    match ctx
    case Top =>
    case SmallOf(chain, big, up) => PlugPtrs(up, Node(chain, t, big));
    case BigOf(chain, small, up) => PlugPtrs(up, Node(chain, small, t));
  }

  /** Nothing in range of the hole is one of the elements around it. */
  lemma {:induction false} RangeDisjoint(b: BodyHeap, ctx: Ctx, s: set<Ptr>)
    requires CtxOrdered(b, ctx) && InRange(b, ctx, s)
    ensures s !! CtxPtrs(ctx)
  {
    match ctx
    case Top =>
    case SmallOf(chain, big, up) =>
      RangeDisjoint(b, up, s);
      assert forall p | p in ChainSet(chain) :: b[p].subhash == b[chain[0]].subhash;
    case BigOf(chain, small, up) =>
      RangeDisjoint(b, up, s);
      assert forall p | p in ChainSet(chain) :: b[p].subhash == b[chain[0]].subhash;
  }

  // ---------------------------------------------------------------- insertion

  /** The tree InsertElement builds: o is hung at the end of the search path of its root's subhash. */
  ghost function InsertTree(b: BodyHeap, t: Tree, o: Tree): (r: Tree)
    requires t.Node? && Ordered(b, t)
    requires o.Node? && Ordered(b, o)
    ensures r.Node? && |r.chain| > 0 && r.chain[0] == t.chain[0]
  {
    var x, y := b[t.chain[0]].subhash, b[o.chain[0]].subhash;
    if x < y then
      Node(t.chain, t.small, if t.big.Nil? then o else InsertTree(b, t.big, o))
    else if y < x then
      Node(t.chain, if t.small.Nil? then o else InsertTree(b, t.small, o), t.big)
    else
      Node(t.chain + o.chain, t.small, t.big)
  }

  /** o as a whole belongs where its root's subhash leads. */
  ghost predicate Fits(b: BodyHeap, t: Tree, o: Tree)
    requires Ordered(b, t)
    requires o.Node? && Ordered(b, o)
  {
    match t
    case Nil => true
    case Node(chain, small, big) =>
      var x, y := b[chain[0]].subhash, b[o.chain[0]].subhash;
      if x < y then AllAbove(b, Ptrs(o), x) && Fits(b, big, o)
      else if y < x then AllBelow(b, Ptrs(o), x) && Fits(b, small, o)
      else o.small.Nil? && o.big.Nil? && ChainSet(chain) !! ChainSet(o.chain)
  }

  lemma ChainAppended(b: BodyHeap, c1: seq<Ptr>, c2: seq<Ptr>)
    requires ChainOrdered(b, c1) && ChainOrdered(b, c2)
    requires b[c1[0]].subhash == b[c2[0]].subhash
    requires ChainSet(c1) !! ChainSet(c2)
    ensures ChainOrdered(b, c1 + c2)
    ensures ChainSet(c1 + c2) == ChainSet(c1) + ChainSet(c2)
  {
    assert forall i | 0 <= i < |c1| :: c1[i] in ChainSet(c1);
    assert forall i | 0 <= i < |c2| :: c2[i] in ChainSet(c2);
  }

  lemma {:induction false} InsertedPtrs(b: BodyHeap, t: Tree, o: Tree)
    requires t.Node? && Ordered(b, t)
    requires o.Node? && Ordered(b, o) && Fits(b, t, o)
    ensures Ptrs(InsertTree(b, t, o)) == Ptrs(t) + Ptrs(o)
    ensures Size(InsertTree(b, t, o)) == Size(t) + Size(o)
    decreases t
  {
    var x, y := b[t.chain[0]].subhash, b[o.chain[0]].subhash;
    if x < y {
      if t.big.Node? {
        InsertedPtrs(b, t.big, o);
      }
      assert Ptrs(InsertTree(b, t, o).big) == Ptrs(t.big) + Ptrs(o);
    } else if y < x {
      if t.small.Node? {
        InsertedPtrs(b, t.small, o);
      }
      assert Ptrs(InsertTree(b, t, o).small) == Ptrs(t.small) + Ptrs(o);
    } else {
      ChainAppended(b, t.chain, o.chain);
    }
  }

  lemma {:induction false} InsertedOrdered(b: BodyHeap, t: Tree, o: Tree)
    requires t.Node? && Ordered(b, t)
    requires o.Node? && Ordered(b, o) && Fits(b, t, o)
    ensures Ordered(b, InsertTree(b, t, o))
    decreases t
  {
    var x, y := b[t.chain[0]].subhash, b[o.chain[0]].subhash;
    var r := InsertTree(b, t, o);
    if x < y {
      if t.big.Node? {
        InsertedOrdered(b, t.big, o);
        InsertedPtrs(b, t.big, o);
      }
      assert Ordered(b, r.big) && AllAbove(b, Ptrs(r.big), x);
    } else if y < x {
      if t.small.Node? {
        InsertedOrdered(b, t.small, o);
        InsertedPtrs(b, t.small, o);
      }
      assert Ordered(b, r.small) && AllBelow(b, Ptrs(r.small), x);
    } else {
      ChainAppended(b, t.chain, o.chain);
    }
  }

  /** A single new element fits every tree it is not in. */
  lemma {:induction false} ElementFits(b: BodyHeap, t: Tree, e: Ptr)
    requires Ordered(b, t) && e in b && e != NULL && e !in Ptrs(t)
    ensures Ordered(b, Node([e], Nil, Nil)) && Fits(b, t, Node([e], Nil, Nil))
    ensures Ptrs(Node([e], Nil, Nil)) == {e}
    decreases t
  {
    match t
    case Nil =>
    case Node(chain, small, big) =>
      ElementFits(b, small, e);
      ElementFits(b, big, e);
  }

  /** A tree that lies wholly on one side of another fits it. */
  lemma {:induction false} SideFits(b: BodyHeap, t: Tree, o: Tree)
    requires Ordered(b, t) && o.Node? && Ordered(b, o)
    requires
      || (forall p, q | p in Ptrs(t) && q in Ptrs(o) :: p in b && q in b && b[p].subhash < b[q].subhash)
      || (forall p, q | p in Ptrs(t) && q in Ptrs(o) :: p in b && q in b && b[q].subhash < b[p].subhash)
    ensures Fits(b, t, o)
    decreases t
  {
    match t
    case Nil =>
    case Node(chain, small, big) =>
      assert chain[0] in Ptrs(t) && o.chain[0] in Ptrs(o);
      SideFits(b, small, o);
      SideFits(b, big, o);
  }

  /** Inserting from the root a tree that belongs at the hole is inserting it in the hole. */
  lemma {:induction false} InsertInHole(b: BodyHeap, ctx: Ctx, t: Tree, o: Tree)
    requires t.Node? && o.Node? && Ordered(b, o)
    requires Ordered(b, Plug(ctx, t)) && Ordered(b, t)
    requires InRange(b, ctx, Ptrs(o))
    requires Fits(b, t, o)
    ensures Plug(ctx, t).Node?
    ensures Fits(b, Plug(ctx, t), o)
    ensures InsertTree(b, Plug(ctx, t), o) == Plug(ctx, InsertTree(b, t, o))
  {
    match ctx
    case Top =>
    case SmallOf(chain, big, up) =>
      PlugOrdered(b, up, Node(chain, t, big));
      assert o.chain[0] in Ptrs(o);
      InsertInHole(b, up, Node(chain, t, big), o);
    case BigOf(chain, small, up) =>
      PlugOrdered(b, up, Node(chain, small, t));
      assert o.chain[0] in Ptrs(o);
      InsertInHole(b, up, Node(chain, small, t), o);
  }

  // ---------------------------------------------------------------- removal

  function Without(chain: seq<Ptr>, e: Ptr): (r: seq<Ptr>)
    requires e in chain
    ensures |r| == |chain| - 1
  {
    if chain[0] == e then chain[1..] else [chain[0]] + Without(chain[1..], e)
  }

  lemma {:induction false} WithoutDistinct(chain: seq<Ptr>, e: Ptr)
    requires e in chain
    requires Distinct(chain)
    ensures Distinct(Without(chain, e))
    ensures forall p :: p in Without(chain, e) <==> p in chain && p != e
  {
    var x, rest := chain[0], chain[1..];
    assert chain == [x] + rest;
    assert x !in rest;
    if x != e {
      WithoutDistinct(rest, e);
    }
  }

  lemma WithoutChain(b: BodyHeap, chain: seq<Ptr>, e: Ptr)
    requires ChainOrdered(b, chain) && |chain| > 1 && e in chain
    ensures ChainOrdered(b, Without(chain, e))
    ensures b[Without(chain, e)[0]].subhash == b[chain[0]].subhash
    ensures ChainSet(Without(chain, e)) == ChainSet(chain) - {e}
  {
    WithoutDistinct(chain, e);
    var w := Without(chain, e);
    assert w[0] in w;
  }

  lemma {:induction false} WithoutAt(chain: seq<Ptr>, i: nat)
    requires i < |chain|
    requires Distinct(chain)
    ensures Without(chain, chain[i]) == chain[..i] + chain[i + 1..]
  {
    if i > 0 {
      WithoutAt(chain[1..], i - 1);
      assert chain[1..][i - 1] == chain[i];
      assert [chain[0]] + (chain[1..][..i - 1] + chain[1..][i..]) == chain[..i] + chain[i + 1..];
    }
  }

  /**
   The subtree TakeOffElement leaves in the place of a node when e goes from its chain:
   with two subtrees and nothing else, the one that is kept takes in the other.
   */
  ghost function TakeNode(b: BodyHeap, t: Tree, e: Ptr, inBig: bool): Tree
    requires t.Node? && Ordered(b, t) && e in t.chain
  {
    if |t.chain| > 1 then Node(Without(t.chain, e), t.small, t.big)
    else if t.small.Node? && t.big.Node? then
      if inBig then InsertTree(b, t.small, t.big) else InsertTree(b, t.big, t.small)
    else if t.big.Node? then t.big
    else t.small
  }

  /** A node's two subtrees can be joined either way round. */
  lemma Joined(b: BodyHeap, t: Tree)
    requires t.Node? && Ordered(b, t) && t.small.Node? && t.big.Node?
    ensures Fits(b, t.small, t.big) && Fits(b, t.big, t.small)
  {
    assert AllBelow(b, Ptrs(t.small), b[t.chain[0]].subhash) && AllAbove(b, Ptrs(t.big), b[t.chain[0]].subhash);
    SideFits(b, t.small, t.big);
    SideFits(b, t.big, t.small);
  }

  lemma JoinedTree(b: BodyHeap, t: Tree, inBig: bool)
    requires t.Node? && Ordered(b, t) && t.small.Node? && t.big.Node?
    ensures
      var r := if inBig then InsertTree(b, t.small, t.big) else InsertTree(b, t.big, t.small);
      Ordered(b, r) && Ptrs(r) == Ptrs(t.small) + Ptrs(t.big) && Size(r) == Size(t.small) + Size(t.big)
  {
    Joined(b, t);
    var t1, t2 := if inBig then t.small else t.big, if inBig then t.big else t.small;
    InsertedPtrs(b, t1, t2);
    InsertedOrdered(b, t1, t2);
  }

  lemma TakenNode(b: BodyHeap, t: Tree, e: Ptr, inBig: bool)
    requires t.Node? && Ordered(b, t) && e in t.chain
    ensures Ordered(b, TakeNode(b, t, e, inBig))
    ensures Ptrs(TakeNode(b, t, e, inBig)) == Ptrs(t) - {e}
    ensures Size(TakeNode(b, t, e, inBig)) == Size(t) - 1
  {
    NodeDisjoint(b, t);
    assert e in ChainSet(t.chain);
    if |t.chain| > 1 {
      WithoutChain(b, t.chain, e);
    } else {
      assert ChainSet(t.chain) == {e};
      if t.small.Node? && t.big.Node? {
        JoinedTree(b, t, inBig);
      }
    }
  }

  /** TakeNode seen from the whole tree. */
  lemma TakenFromTree(b: BodyHeap, ctx: Ctx, t: Tree, e: Ptr, inBig: bool)
    requires Ordered(b, Plug(ctx, t)) && t.Node? && e in t.chain
    ensures Ordered(b, t)
    ensures Ordered(b, Plug(ctx, TakeNode(b, t, e, inBig)))
    ensures Ptrs(Plug(ctx, TakeNode(b, t, e, inBig))) == Ptrs(Plug(ctx, t)) - {e}
    ensures Size(Plug(ctx, TakeNode(b, t, e, inBig))) == Size(Plug(ctx, t)) - 1
  {
    PlugOrdered(b, ctx, t);
    TakenNode(b, t, e, inBig);
    var t' := TakeNode(b, t, e, inBig);
    InRangeSubset(b, ctx, Ptrs(t'), Ptrs(t));
    PlugOrdered(b, ctx, t');
    PlugPtrs(ctx, t);
    PlugPtrs(ctx, t');
    RangeDisjoint(b, ctx, Ptrs(t));
    assert e in Ptrs(t);
  }

  /** Every element of a tree sits in the chain of some subtree. */
  lemma {:induction false} Located(t: Tree, e: Ptr) returns (ctx: Ctx, sub: Tree)
    requires e in Ptrs(t)
    ensures t == Plug(ctx, sub) && sub.Node? && e in sub.chain
  {
    ctx, sub := LocatedBelow(Top, t, e);
  }

  lemma {:induction false} LocatedBelow(up: Ctx, t: Tree, e: Ptr) returns (ctx: Ctx, sub: Tree)
    requires e in Ptrs(t)
    ensures Plug(up, t) == Plug(ctx, sub) && sub.Node? && e in sub.chain
    decreases t
  {
    if e in t.chain {
      ctx, sub := up, t;
    } else if e in Ptrs(t.small) {
      ctx, sub := LocatedBelow(SmallOf(t.chain, t.big, up), t.small, e);
    } else {
      ctx, sub := LocatedBelow(BigOf(t.chain, t.small, up), t.big, e);
    }
  }

  // ---------------------------------------------------------------- single elements

  function Leaf(e: Ptr): Tree
  {
    Node([e], Nil, Nil)
  }

  /** The tree with the single element e put in. */
  ghost function AddTree(b: BodyHeap, t: Tree, e: Ptr): Tree
    requires Ordered(b, t) && e in b && e != NULL
  {
    if t.Nil? then Leaf(e) else InsertTree(b, t, Leaf(e))
  }

  lemma AddedTree(b: BodyHeap, t: Tree, e: Ptr)
    requires Ordered(b, t) && e in b && e != NULL && e !in Ptrs(t)
    ensures Ordered(b, AddTree(b, t, e))
    ensures Ptrs(AddTree(b, t, e)) == Ptrs(t) + {e}
    ensures Size(AddTree(b, t, e)) == Size(t) + 1
  {
    ElementFits(b, t, e);
    if t.Node? {
      InsertedPtrs(b, t, Leaf(e));
      InsertedOrdered(b, t, Leaf(e));
    }
  }

  /** Among the elements of s, the subhash decides the hash. */
  ghost predicate SubhashDecides(b: BodyHeap, s: set<Ptr>)
  {
    forall p, q | p in s && q in s && p in b && q in b && b[p].subhash == b[q].subhash :: b[p].hash == b[q].hash
  }
}
