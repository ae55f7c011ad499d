/**
 Looking an element up in the tree of a CKINDEX (K2HShm::GetElementList).
 */
module TreeSearch {
  import opened Layout
  import opened ElementTree
  import opened ElementLinks
  import opened KIndexHome
  import opened TreeMoves
  import opened Forest

  /** The chain that GetElementList finds: the one with the subhash, unless its head has another hash. */
  function FoundChain(b: BodyHeap, t: Tree, hash: nat, subhash: nat): seq<Ptr>
  {
    match t
    case Nil => []
    case Node(chain, small, big) =>
      if |chain| == 0 || chain[0] !in b then []
      else if subhash == b[chain[0]].subhash then (if hash == b[chain[0]].hash then chain else [])
      else if subhash < b[chain[0]].subhash then FoundChain(b, small, hash, subhash)
      else FoundChain(b, big, hash, subhash)
  }

  /** The elements of s with these hashes. */
  ghost function WithHashes(b: BodyHeap, s: set<Ptr>, hash: nat, subhash: nat): set<Ptr>
  {
    set p | p in s && p in b && b[p].hash == hash && b[p].subhash == subhash
  }

  lemma {:induction false} FoundIn(b: BodyHeap, t: Tree, hash: nat, subhash: nat, p: Ptr)
    requires Ordered(b, t) && p in FoundChain(b, t, hash, subhash)
    ensures p in Ptrs(t) && p in b && b[p].subhash == subhash
  {
    if subhash == b[t.chain[0]].subhash {
      assert p in ChainSet(t.chain);
    } else if subhash < b[t.chain[0]].subhash {
      FoundIn(b, t.small, hash, subhash, p);
    } else {
      FoundIn(b, t.big, hash, subhash, p);
    }
  }

  /** A search finds all of the chain it ends at, or nothing: what is found has one hash at its head. */
  lemma {:induction false} FoundHead(b: BodyHeap, t: Tree, hash: nat, subhash: nat)
    requires Ordered(b, t)
    ensures
      var f := FoundChain(b, t, hash, subhash);
      f != [] ==> f[0] in Ptrs(t) && f[0] in b && b[f[0]].hash == hash && b[f[0]].subhash == subhash
  {
    match t
    case Nil =>
    case Node(chain, small, big) =>
      assert chain[0] in ChainSet(chain);
      FoundHead(b, small, hash, subhash);
      FoundHead(b, big, hash, subhash);
  }

  lemma {:induction false} FoundOwn(b: BodyHeap, t: Tree, p: Ptr)
    requires Ordered(b, t) && SubhashDecides(b, Ptrs(t)) && p in Ptrs(t) && p in b
    ensures p in FoundChain(b, t, b[p].hash, b[p].subhash)
  {
    var x := b[t.chain[0]].subhash;
    assert t.chain[0] in ChainSet(t.chain);
    assert forall r | r in ChainSet(t.chain) :: r in b && b[r].subhash == x;
    if b[p].subhash < x {
      FoundOwn(b, t.small, p);
    } else if x < b[p].subhash {
      FoundOwn(b, t.big, p);
    } else {
      assert p in ChainSet(t.chain);
    }
  }

  /** While the subhash decides the hash, a search finds exactly the elements with both hashes. */
  lemma FoundExactly(b: BodyHeap, t: Tree, hash: nat, subhash: nat)
    requires Ordered(b, t) && SubhashDecides(b, Ptrs(t))
    ensures ChainSet(FoundChain(b, t, hash, subhash)) == WithHashes(b, Ptrs(t), hash, subhash)
  {
    var f := FoundChain(b, t, hash, subhash);
    FoundHead(b, t, hash, subhash);
    forall p
      ensures p in f <==> p in WithHashes(b, Ptrs(t), hash, subhash)
    {
      if p in f {
        FoundIn(b, t, hash, subhash, p);
      }
      if p in WithHashes(b, Ptrs(t), hash, subhash) {
        FoundOwn(b, t, p);
      }
    }
  }

  /**
   Every element of a tree is found under its own hashes exactly when the subhash decides the
   hash: of two elements with one subhash and two hashes the one behind the other is lost.
   */
  lemma AllFoundIff(b: BodyHeap, t: Tree)
    requires Ordered(b, t)
    ensures (forall p | p in Ptrs(t) && p in b :: p in FoundChain(b, t, b[p].hash, b[p].subhash)) <==>
      SubhashDecides(b, Ptrs(t))
  {
    if forall p | p in Ptrs(t) && p in b :: p in FoundChain(b, t, b[p].hash, b[p].subhash) {
      forall p, q | p in Ptrs(t) && q in Ptrs(t) && p in b && q in b && b[p].subhash == b[q].subhash
        ensures b[p].hash == b[q].hash
      {
        FoundAt(b, t, p);
        FoundAt(b, t, q);
      }
    } else {
      var p :| p in Ptrs(t) && p in b && p !in FoundChain(b, t, b[p].hash, b[p].subhash);
      if SubhashDecides(b, Ptrs(t)) {
        FoundOwn(b, t, p);
      }
    }
  }

  /** The hash of the head of the chain that a search for a subhash ends at, 0 when there is none. */
  function HeadHash(b: BodyHeap, t: Tree, subhash: nat): nat
  {
    match t
    case Nil => 0
    case Node(chain, small, big) =>
      if |chain| == 0 || chain[0] !in b then 0
      else if subhash == b[chain[0]].subhash then b[chain[0]].hash
      else if subhash < b[chain[0]].subhash then HeadHash(b, small, subhash)
      else HeadHash(b, big, subhash)
  }

  lemma {:induction false} FoundAt(b: BodyHeap, t: Tree, p: Ptr)
    requires Ordered(b, t) && p in Ptrs(t) && p in b
    ensures p in FoundChain(b, t, b[p].hash, b[p].subhash) ==> b[p].hash == HeadHash(b, t, b[p].subhash)
  {
    var x := b[t.chain[0]].subhash;
    assert forall r | r in ChainSet(t.chain) :: r in b && b[r].subhash == x;
    if b[p].subhash < x {
      FoundAt(b, t.small, p);
    } else if x < b[p].subhash {
      FoundAt(b, t.big, p);
    }
  }

  /** The found chain is linked through `same`. */
  lemma {:induction false} FoundLinked(b: BodyHeap, h: LinkHeap, parent: Ptr, t: Tree, hash: nat, subhash: nat)
    requires Ordered(b, t) && Linked(h, parent, t) && FoundChain(b, t, hash, subhash) != []
    ensures SameLinked(h, FoundChain(b, t, hash, subhash))
    ensures Distinct(FoundChain(b, t, hash, subhash)) && NULL !in FoundChain(b, t, hash, subhash)
    decreases t
  {
    var x := b[t.chain[0]].subhash;
    if subhash < x {
      FoundLinked(b, h, t.chain[0], t.small, hash, subhash);
    } else if x < subhash {
      FoundLinked(b, h, t.chain[0], t.big, hash, subhash);
    }
  }

  /** What a search in the right tree finds is every live element with these hashes. */
  lemma FoundLive(b: BodyHeap, t: Tree, loc: Places, cp: CKPtr, ka: AssignMap, n: nat, cb: nat, hash: nat, subhash: nat)
    requires Ordered(b, t) && SubhashDecides(b, Ptrs(t)) && PlacedAt(t, loc, cp)
    requires AtHome(b, ka, n, cb, loc) && cp == HomePtr(ka, n, cb, hash)
    ensures forall p ::
      p in FoundChain(b, t, hash, subhash) <==> p in loc && p in b && b[p].hash == hash && b[p].subhash == subhash
  {
    FoundExactly(b, t, hash, subhash);
    var f := FoundChain(b, t, hash, subhash);
    forall p
      ensures p in f <==> p in loc && p in b && b[p].hash == hash && b[p].subhash == subhash
    {
      assert p in f <==> p in ChainSet(f);
    }
  }

  lemma CountZero(b: BodyHeap, t: Tree)
    requires Ordered(b, t) && Size(t) == 0
    ensures t == Nil
  {
  }
}
