/**
  What a document keeps about its nodes, as values: which are alive, which of them are in no tree,
  and what the pools count.
*/
module XmlBooks {
  import opened Wrappers
  import opened NodeWorlds
  import opened MemPools
  import opened XmlDom

  // ----- the books of one pool -----

  ghost function NodesOf(nodes: set<XMLNode>, pool: MemPool): set<XMLNode> {
    set n | n in nodes && n.memPool == pool
  }

  ghost function SlotsOf(nodes: set<XMLNode>, pool: MemPool): set<Item> {
    set n | n in NodesOf(nodes, pool) :: n.slot
  }

  ghost predicate OwnSlots(nodes: set<XMLNode>) {
    forall m, n :: m in nodes && n in nodes && m.memPool == n.memPool && m.slot == n.slot ==> m == n
  }

  /** Nodes of the pool in no tree, leaving out those in the middle of an operation. */
  ghost function Waiting(unlinked: seq<XMLNode>, limbo: set<XMLNode>, pool: MemPool): set<XMLNode> {
    set n | n in unlinked && n !in limbo && n.memPool == pool
  }

  /** As many items of a pool are in use as nodes of it are alive. */
  lemma LiveCount(nodes: set<XMLNode>, pool: MemPool)
    requires OwnSlots(nodes)
    ensures |SlotsOf(nodes, pool)| == |NodesOf(nodes, pool)|
    decreases |NodesOf(nodes, pool)|
  {
    if NodesOf(nodes, pool) != {} {
      var n :| n in NodesOf(nodes, pool);
      assert NodesOf(nodes - {n}, pool) == NodesOf(nodes, pool) - {n};
      LiveCount(nodes - {n}, pool);
      SlotsWithout(nodes, pool, n);
    } else {
      assert SlotsOf(nodes, pool) == {};
    }
  }

  lemma SlotsWithout(nodes: set<XMLNode>, pool: MemPool, n: XMLNode)
    requires OwnSlots(nodes) && n in nodes && n.memPool == pool
    ensures n.slot in SlotsOf(nodes, pool) && SlotsOf(nodes - {n}, pool) == SlotsOf(nodes, pool) - {n.slot}
  {
  }

  lemma SlotsOfOthers(nodes: set<XMLNode>, pool: MemPool, n: XMLNode)
    requires n.memPool != pool
    ensures SlotsOf(nodes - {n}, pool) == SlotsOf(nodes, pool)
    ensures SlotsOf(nodes + {n}, pool) == SlotsOf(nodes, pool)
  {
  }

  lemma SlotsWith(nodes: set<XMLNode>, pool: MemPool, n: XMLNode)
    requires n.memPool == pool
    ensures SlotsOf(nodes + {n}, pool) == SlotsOf(nodes, pool) + {n.slot}
  {
  }

  // ----- the list of nodes in no tree -----

  /** `DynArray::SwapRemove`: the last element takes the place of the removed one. */
  function SwapRemove<T>(s: seq<T>, i: nat): (r: seq<T>)
    requires i < |s|
  {
    s[i := s[|s| - 1]][..|s| - 1]
  }

  lemma SwapRemoved<T>(s: seq<T>, i: nat)
    requires i < |s| && forall j, k :: 0 <= j < k < |s| ==> s[j] != s[k]
    ensures var r := SwapRemove(s, i);
            && (forall x :: x in r <==> x in s && x != s[i])
            && (forall j, k :: 0 <= j < k < |r| ==> r[j] != r[k])
  {
    var r := SwapRemove(s, i);
    forall x | x in s && x != s[i]
      ensures x in r
    {
      var j :| 0 <= j < |s| && s[j] == x;
      assert r[if j == |s| - 1 then i else j] == x;
    }
  }

  ghost predicate NoRepeats<T>(s: seq<T>) {
    forall j, k :: 0 <= j < k < |s| ==> s[j] != s[k]
  }

  // ----- the document as a value -----

  /** What a document keeps besides the links of its nodes; `limbo` holds the nodes in the middle of
      an operation, `live` and `untracked` are those of its pools of nodes. */
  datatype Ledger = Ledger(root: XMLNode, unlinked: seq<XMLNode>, limbo: set<XMLNode>,
                           live: map<MemPool, set<Item>>, untracked: map<MemPool, int>)

  /** Every node but the root lives in one slot of one pool. */
  ghost predicate Housed(nodes: set<XMLNode>, l: Ledger) {
    && l.root in nodes && OwnSlots(nodes)
    && (forall n :: n in nodes ==> if n == l.root then n.memPool == null else n.memPool in l.live)
    && (forall p :: p in l.live ==> l.live[p] == SlotsOf(nodes, p))
  }

  /** The list holds the nodes in no tree. */
  ghost predicate Loose(w: World<XMLNode>, l: Ledger) {
    && l.root in w && w[l.root].parent == None
    && NoRepeats(l.unlinked)
    && (forall n :: n in l.unlinked ==> n in w && n != l.root)
    && (forall n :: n in w && n != l.root && n !in l.limbo ==> (n in l.unlinked <==> w[n].parent == None))
    && (forall n :: n in l.limbo ==> n in w && w[n].parent == None)
  }

  /** A pool's untracked count is that of its nodes on the list. */
  ghost predicate Counted(l: Ledger) {
    && l.untracked.Keys == l.live.Keys
    && forall p :: p in l.untracked ==> l.untracked[p] == |Waiting(l.unlinked, l.limbo, p)|
  }

  ghost predicate Ok(w: World<XMLNode>, rank: map<XMLNode, nat>, l: Ledger) {
    WellFormed(w, rank) && Housed(w.Keys, l) && Loose(w, l) && Counted(l)
  }

  lemma OkAtFirst(w: World<XMLNode>, rank: map<XMLNode, nat>, l: Ledger)
    requires l.root in w && w.Keys == {l.root} && w[l.root] == Links(None, None, None, None, None, [])
    requires l.root in rank && l.root.memPool == null && l.unlinked == [] && l.limbo == {}
    requires l.untracked.Keys == l.live.Keys
    requires forall p :: p in l.live ==> l.live[p] == {} && l.untracked[p] == 0
    ensures Ok(w, rank, l)
  {
    forall p | p in l.live
      ensures l.live[p] == SlotsOf(w.Keys, p) && l.untracked[p] == |Waiting(l.unlinked, l.limbo, p)|
    {
      assert NodesOf(w.Keys, p) == {} && Waiting(l.unlinked, l.limbo, p) == {};
    }
  }

  lemma NodeFacts(w: World<XMLNode>, rank: map<XMLNode, nat>, l: Ledger, n: XMLNode)
    requires Ok(w, rank, l) && n in w && n != l.root
    ensures n.memPool in l.live && n.slot in l.live[n.memPool] && n.memPool in l.untracked
    ensures n !in l.limbo ==> (n in l.unlinked <==> w[n].parent == None)
  {
  }

  ghost predicate SamePools(l: Ledger, l': Ledger) {
    && l'.root == l.root && l'.live.Keys == l.live.Keys && l'.untracked.Keys == l.untracked.Keys
    && (forall p :: p in l.live ==> l'.live[p] == l.live[p])
    && (forall p :: p in l.untracked ==> l'.untracked[p] == l.untracked[p])
  }

  lemma OkUnlinked(w: World<XMLNode>, w': World<XMLNode>, rank: map<XMLNode, nat>, l: Ledger, l': Ledger, p: XMLNode,
                   c: XMLNode)
    requires Ok(w, rank, l) && c in w && w[c].parent == Some(p) && p in w && c !in l.limbo
    requires Unlinked(w, w', p, c) && WellFormed(w', rank)
    requires SamePools(l, l') && l'.unlinked == l.unlinked && l'.limbo == l.limbo + {c}
    ensures Ok(w', rank, l') && w'[c].parent == None && c !in l.unlinked
  {
    hide WellFormed, Housed, NoRepeats, Counted, Loose, Unlinked;
    assert l' == l.(limbo := l.limbo + {c});
    LooseUnlinked(w, w', l, p, c);
    CountedWithout(l, c);
    UnlinkedKeys(w, w', p, c);
    HousedLimbo(w.Keys, l, l');
  }

  lemma UnlinkedKeys(w: World<XMLNode>, w': World<XMLNode>, p: XMLNode, c: XMLNode)
    requires p in w && c in w && Unlinked(w, w', p, c)
    ensures w'.Keys == w.Keys && w'[c].parent == None
    ensures forall n :: n in w && n != c ==> w'[n].parent == w[n].parent
  {
  }

  lemma LooseUnlinked(w: World<XMLNode>, w': World<XMLNode>, l: Ledger, p: XMLNode, c: XMLNode)
    requires c in w && p in w && Unlinked(w, w', p, c) && Loose(w, l) && w[c].parent == Some(p) && c !in l.limbo
    ensures Loose(w', l.(limbo := l.limbo + {c})) && c !in l.unlinked
  {
  }

  lemma CountedWithout(l: Ledger, c: XMLNode)
    requires Counted(l) && c !in l.unlinked
    ensures Counted(l.(limbo := l.limbo + {c}))
  {
    forall q | q in l.untracked
      ensures l.untracked[q] == |Waiting(l.unlinked, l.limbo + {c}, q)|
    {
      assert Waiting(l.unlinked, l.limbo + {c}, q) == Waiting(l.unlinked, l.limbo, q);
    }
  }

  lemma HousedLimbo(nodes: set<XMLNode>, l: Ledger, l': Ledger)
    requires Housed(nodes, l) && l'.root == l.root && l'.live == l.live
    ensures Housed(nodes, l')
  {
  }

  /** A node in no tree is taken off the list, and its pool counts one fewer. */
  lemma OkClaimed(w: World<XMLNode>, rank: map<XMLNode, nat>, l: Ledger, l': Ledger, n: XMLNode)
    requires Ok(w, rank, l) && n in w && n != l.root && w[n].parent == None && n !in l.limbo && n.memPool in l.untracked
    requires l'.root == l.root && l'.limbo == l.limbo + {n}
    requires l'.live.Keys == l.live.Keys && l'.untracked.Keys == l.untracked.Keys
    requires forall q :: q in l.live ==> l'.live[q] == l.live[q]
    requires forall q :: q in l.untracked ==> l'.untracked[q] == l.untracked[q] - (if q == n.memPool then 1 else 0)
    requires NoRepeats(l'.unlinked) && forall x :: x in l'.unlinked <==> x in l.unlinked && x != n
    ensures Ok(w, rank, l')
  {
    hide WellFormed, Housed, NoRepeats;
    assert n in l.unlinked;
    forall q | q in l'.untracked
      ensures l'.untracked[q] == |Waiting(l'.unlinked, l'.limbo, q)|
    {
      assert Waiting(l'.unlinked, l'.limbo, q) == Waiting(l.unlinked, l.limbo, q) - {n};
      assert n in Waiting(l.unlinked, l.limbo, q) <==> n.memPool == q;
    }
    assert l'.live == l.live;
    HousedLimbo(w.Keys, l, l');
  }

  lemma LoosePlaced(w: World<XMLNode>, w': World<XMLNode>, l: Ledger, c: XMLNode)
    requires Loose(w, l) && w'.Keys == w.Keys && c in w && c != l.root && c !in l.unlinked
    requires w'[c].parent.Some? && forall n :: n in w && n != c ==> w'[n].parent == w[n].parent
    ensures Loose(w', l.(limbo := l.limbo - {c}))
  {
  }

  /** A node comes out of the middle of an operation with a parent. */
  lemma OkPlaced(w: World<XMLNode>, w': World<XMLNode>, rank: map<XMLNode, nat>, rank': map<XMLNode, nat>, l: Ledger,
                 c: XMLNode)
    requires Ok(w, rank, l) && WellFormed(w', rank') && w'.Keys == w.Keys && c in w && c != l.root && c !in l.unlinked
    requires w'[c].parent.Some? && forall n :: n in w && n != c ==> w'[n].parent == w[n].parent
    ensures Ok(w', rank', l.(limbo := l.limbo - {c}))
  {
    hide WellFormed, Housed, Loose;
    LoosePlaced(w, w', l, c);
    var l' := l.(limbo := l.limbo - {c});
    forall q | q in l'.untracked
      ensures l'.untracked[q] == |Waiting(l'.unlinked, l'.limbo, q)|
    {
      assert Waiting(l'.unlinked, l'.limbo, q) == Waiting(l.unlinked, l.limbo, q);
    }
    HousedLimbo(w.Keys, l, l');
  }

  /** A pool is told of a node that is still on the list. */
  lemma OkTracked(w: World<XMLNode>, rank: map<XMLNode, nat>, l: Ledger, l': Ledger, n: XMLNode)
    requires Ok(w, rank, l) && n in w && n != l.root && w[n].parent == None && n !in l.limbo && n.memPool in l.untracked
    requires l'.root == l.root && l'.limbo == l.limbo + {n} && l'.unlinked == l.unlinked
    requires l'.live.Keys == l.live.Keys && l'.untracked.Keys == l.untracked.Keys
    requires forall q :: q in l.live ==> l'.live[q] == l.live[q]
    requires forall q :: q in l.untracked ==> l'.untracked[q] == l.untracked[q] - (if q == n.memPool then 1 else 0)
    ensures Ok(w, rank, l')
  {
    hide WellFormed, Housed, NoRepeats;
    assert n in l.unlinked;
    forall q | q in l'.untracked
      ensures l'.untracked[q] == |Waiting(l'.unlinked, l'.limbo, q)|
    {
      assert Waiting(l'.unlinked, l'.limbo, q) == Waiting(l.unlinked, l.limbo, q) - {n};
      assert n in Waiting(l.unlinked, l.limbo, q) <==> n.memPool == q;
    }
    assert l'.live == l.live;
    HousedLimbo(w.Keys, l, l');
  }

  /** A node in the middle of an operation is taken off the list. */
  lemma OkUnlisted(w: World<XMLNode>, rank: map<XMLNode, nat>, l: Ledger, l': Ledger, n: XMLNode)
    requires Ok(w, rank, l) && n in l.limbo && SamePools(l, l') && l'.limbo == l.limbo
    requires NoRepeats(l'.unlinked) && forall x :: x in l'.unlinked <==> x in l.unlinked && x != n
    ensures Ok(w, rank, l')
  {
    hide WellFormed, Housed, NoRepeats;
    forall q | q in l'.untracked
      ensures l'.untracked[q] == |Waiting(l'.unlinked, l'.limbo, q)|
    {
      assert Waiting(l'.unlinked, l'.limbo, q) == Waiting(l.unlinked, l.limbo, q);
    }
    assert l'.live == l.live;
    HousedLimbo(w.Keys, l, l');
  }

  /** One item less is in use in one pool. */
  ghost predicate PoolShrunk(l: Ledger, l': Ledger, pool: MemPool?, slot: Item) {
    && l'.root == l.root && l'.unlinked == l.unlinked && l'.limbo == l.limbo
    && l'.live.Keys == l.live.Keys && l'.untracked.Keys == l.untracked.Keys
    && (forall q :: q in l.live ==> l'.live[q] == if q == pool then l.live[q] - {slot} else l.live[q])
    && (forall q :: q in l.untracked ==> l'.untracked[q] == l.untracked[q])
  }

  /** One item more is in use in one pool. */
  ghost predicate PoolTaken(l: Ledger, l': Ledger, pool: MemPool, slot: Item) {
    && pool in l.live && slot !in l.live[pool]
    && l'.root == l.root && l'.unlinked == l.unlinked && l'.limbo == l.limbo
    && l'.live.Keys == l.live.Keys && l'.untracked.Keys == l.untracked.Keys
    && (forall q :: q in l.live ==> l'.live[q] == if q == pool then l.live[q] + {slot} else l.live[q])
    && (forall q :: q in l.untracked ==> l'.untracked[q] == l.untracked[q] + (if q == pool then 1 else 0))
  }

  lemma TakenThenListed(l: Ledger, m: Ledger, l': Ledger, n: XMLNode)
    requires n.memPool != null && PoolTaken(l, m, n.memPool, n.slot)
    requires SamePools(m, l') && l'.unlinked == m.unlinked + [n] && l'.limbo == m.limbo
    ensures PoolGrown(l, l', n)
  {
  }

  /** One item more is in use in one pool, for a node that is on the list. */
  ghost predicate PoolGrown(l: Ledger, l': Ledger, n: XMLNode) {
    && n.memPool in l.live && n.slot !in l.live[n.memPool]
    && l'.root == l.root && l'.unlinked == l.unlinked + [n] && l'.limbo == l.limbo
    && l'.live.Keys == l.live.Keys && l'.untracked.Keys == l.untracked.Keys
    && (forall q :: q in l.live ==> l'.live[q] == if q == n.memPool then l.live[q] + {n.slot} else l.live[q])
    && (forall q :: q in l.untracked ==> l'.untracked[q] == l.untracked[q] + (if q == n.memPool then 1 else 0))
  }

  lemma HousedFreed(nodes: set<XMLNode>, l: Ledger, l': Ledger, n: XMLNode)
    requires Housed(nodes, l) && n in nodes && n != l.root && l'.root == l.root && l'.live.Keys == l.live.Keys
    requires forall q :: q in l.live ==> l'.live[q] == if q == n.memPool then l.live[q] - {n.slot} else l.live[q]
    ensures Housed(nodes - {n}, l')
  {
  }

  lemma CountedFreed(l: Ledger, l': Ledger, n: XMLNode)
    requires Counted(l) && n !in l.unlinked && l'.unlinked == l.unlinked && l'.limbo == l.limbo - {n}
    requires l'.live.Keys == l.live.Keys && l'.untracked.Keys == l.untracked.Keys
    requires forall q :: q in l.untracked ==> l'.untracked[q] == l.untracked[q]
    ensures Counted(l')
  {
    forall q | q in l'.untracked
      ensures l'.untracked[q] == |Waiting(l'.unlinked, l'.limbo, q)|
    {
      assert Waiting(l'.unlinked, l'.limbo, q) == Waiting(l.unlinked, l.limbo, q);
    }
  }

  lemma LooseFreed(w: World<XMLNode>, w': World<XMLNode>, l: Ledger, l': Ledger, n: XMLNode)
    requires Loose(w, l) && n in l.limbo && n !in l.unlinked && n != l.root
    requires w' == w - {n} && l'.root == l.root && l'.unlinked == l.unlinked && l'.limbo == l.limbo - {n}
    ensures Loose(w', l')
  {
  }

  /** The memory of a node that is nowhere goes back to its pool. */
  lemma OkFreed(w: World<XMLNode>, w': World<XMLNode>, rank: map<XMLNode, nat>, l: Ledger, m: Ledger, l': Ledger,
                n: XMLNode)
    requires Ok(w, rank, l) && n in w && n in l.limbo && n != l.root && n !in l.unlinked && w[n].kids == []
    requires w' == w - {n} && PoolShrunk(l, m, n.memPool, n.slot)
    requires SamePools(m, l') && l'.unlinked == m.unlinked && l'.limbo == m.limbo - {n}
    ensures Ok(w', rank, l')
  {
    LimboIsLoose(w, l, n);
    hide WellFormed, Housed, Counted, Loose;
    DropKeeps(w, w', rank, n);
    assert w'.Keys == w.Keys - {n};
    HousedFreed(w.Keys, l, l', n);
    CountedFreed(l, l', n);
    LooseFreed(w, w', l, l', n);
  }

  lemma LimboIsLoose(w: World<XMLNode>, l: Ledger, n: XMLNode)
    requires Loose(w, l) && n in l.limbo
    ensures n in w && w[n].parent == None
  {
  }

  lemma OwnSlotsAdd(nodes: set<XMLNode>, n: XMLNode)
    requires OwnSlots(nodes) && n.memPool != null && n.slot !in SlotsOf(nodes, n.memPool)
    ensures OwnSlots(nodes + {n})
  {
  }

  lemma HousedCreated(nodes: set<XMLNode>, l: Ledger, l': Ledger, n: XMLNode)
    requires Housed(nodes, l) && n !in nodes && n.memPool in l.live && n.slot !in l.live[n.memPool]
    requires l'.root == l.root && l'.live.Keys == l.live.Keys
    requires forall q :: q in l.live ==> l'.live[q] == if q == n.memPool then l.live[q] + {n.slot} else l.live[q]
    ensures Housed(nodes + {n}, l')
  {
    hide OwnSlots, SlotsOf;
    OwnSlotsAdd(nodes, n);
    forall q | q in l'.live
      ensures l'.live[q] == SlotsOf(nodes + {n}, q)
    {
      if q == n.memPool {
        SlotsWith(nodes, q, n);
      } else {
        SlotsOfOthers(nodes, q, n);
      }
    }
  }

  lemma CountedCreated(l: Ledger, l': Ledger, n: XMLNode)
    requires Counted(l) && n !in l.unlinked && l'.unlinked == l.unlinked + [n] && l'.limbo == l.limbo && n !in l.limbo
    requires l'.live.Keys == l.live.Keys && l'.untracked.Keys == l.untracked.Keys
    requires forall q :: q in l.untracked ==> l'.untracked[q] == l.untracked[q] + (if q == n.memPool then 1 else 0)
    ensures Counted(l')
  {
    forall q | q in l'.untracked
      ensures l'.untracked[q] == |Waiting(l'.unlinked, l'.limbo, q)|
    {
      if q == n.memPool {
        assert Waiting(l'.unlinked, l'.limbo, q) == Waiting(l.unlinked, l.limbo, q) + {n};
      } else {
        assert Waiting(l'.unlinked, l'.limbo, q) == Waiting(l.unlinked, l.limbo, q);
      }
    }
  }

  lemma LooseCreated(w: World<XMLNode>, l: Ledger, l': Ledger, n: XMLNode)
    requires Loose(w, l) && n !in w && n != l.root
    requires l'.root == l.root && l'.unlinked == l.unlinked + [n] && l'.limbo == l.limbo
    ensures Loose(w[n := Links(None, None, None, None, None, [])], l') && n !in l.unlinked && n !in l.limbo
  {
  }

  /** A new node in a new slot is on the list. */
  lemma OkCreated(w: World<XMLNode>, w': World<XMLNode>, rank: map<XMLNode, nat>, l: Ledger, l': Ledger, n: XMLNode)
    requires Ok(w, rank, l) && n !in w && PoolGrown(l, l', n)
    requires w' == w[n := Links(None, None, None, None, None, [])]
    ensures Ok(w', rank[n := 0], l')
  {
    assert l.root in w;
    hide WellFormed, Housed, Counted, Loose;
    AddKeeps(w, rank, n);
    assert w'.Keys == w.Keys + {n};
    HousedCreated(w.Keys, l, l', n);
    LooseCreated(w, l, l', n);
    CountedCreated(l, l', n);
  }

  lemma OkAdopted(w: World<XMLNode>, w': World<XMLNode>, rank: map<XMLNode, nat>, rank': map<XMLNode, nat>, l: Ledger,
                  l': Ledger, p: XMLNode, c: XMLNode)
    requires Ok(w, rank, l) && WellFormed(w', rank') && Adopted(w, w', p, c)
    requires c in w && c != l.root && c !in l.unlinked
    requires SamePools(l, l') && l'.unlinked == l.unlinked && l'.limbo == l.limbo - {c}
    ensures Ok(w', rank', l')
  {
    hide Ok, WellFormed;
    assert l' == l.(limbo := l.limbo - {c});
    OkPlaced(w, w', rank, rank', l, c);
  }

  lemma OkIsWellFormed(w: World<XMLNode>, rank: map<XMLNode, nat>, l: Ledger)
    requires Ok(w, rank, l)
    ensures WellFormed(w, rank) && NoRepeats(l.unlinked)
  {
  }

  lemma LimboIsDetached(w: World<XMLNode>, rank: map<XMLNode, nat>, l: Ledger, n: XMLNode)
    requires Ok(w, rank, l) && n in l.limbo
    ensures n in w && w[n].parent == None
  {
  }

  /** With an empty list and a root without children the root is all there is. */
  lemma AloneInBooks(w: World<XMLNode>, rank: map<XMLNode, nat>, l: Ledger)
    requires Ok(w, rank, l) && l.unlinked == [] && l.limbo == {} && l.root in w && w[l.root].kids == []
    ensures w.Keys == {l.root}
    ensures forall p :: p in l.live ==> l.live[p] == {} && l.untracked[p] == 0
  {
    forall n | n in w
      ensures n == l.root
    {
      if n != l.root {
        RootHasChild(w, rank, l.root, n);
      }
    }
    forall p | p in l.live
      ensures l.live[p] == {} && l.untracked[p] == 0
    {
      assert NodesOf(w.Keys, p) == {};
      assert Waiting(l.unlinked, l.limbo, p) == {};
    }
  }
}
