/**
  The document: nodes are created, inserted, moved and deleted in place, and the whole is cleared.
  Its own node is `root`.
*/
module XmlDomDocument {
  import opened Wrappers
  import opened SiblingLists
  import opened NodeWorlds
  import opened MemPools
  import opened XmlDom
  import opened XmlAttributes
  import opened XmlBooks

  datatype Outcome = Refused | Inserted | NullDereference

  class XMLDocument {
    var root: XMLNode
    const elementPool: MemPool
    const attributePool: MemPool
    const textPool: MemPool
    const commentPool: MemPool
    var unlinked: seq<XMLNode>
    ghost var nodes: set<XMLNode>
    ghost var rank: map<XMLNode, nat>
    ghost var owner: map<Item, XMLNode>

    ghost function Books(limbo: set<XMLNode>): (l: Ledger)
      reads `root, `unlinked
      reads elementPool`live, elementPool`untracked, textPool`live, textPool`untracked
      reads commentPool`live, commentPool`untracked
      ensures l.root == root && l.unlinked == unlinked && l.limbo == limbo
      ensures l.live.Keys == l.untracked.Keys == {elementPool, textPool, commentPool}
      ensures forall p :: p in l.live ==> l.live[p] == p.live && l.untracked[p] == p.untracked
    {
      Ledger(root, unlinked, limbo,
             map p: MemPool | p in {elementPool, textPool, commentPool} :: p.live,
             map p: MemPool | p in {elementPool, textPool, commentPool} :: p.untracked)
    }

    /** The pools of nodes are in order, whatever they count as untracked. */
    ghost predicate Pools()
      reads {elementPool, textPool, commentPool}`blocks, {elementPool, textPool, commentPool}`next
      reads {elementPool, textPool, commentPool}`root, {elementPool, textPool, commentPool}`free
      reads {elementPool, textPool, commentPool}`currentAllocs, {elementPool, textPool, commentPool}`nAllocs
      reads {elementPool, textPool, commentPool}`maxAllocs, {elementPool, textPool, commentPool}`live
    {
      && elementPool != textPool && elementPool != commentPool && textPool != commentPool
      && attributePool !in {elementPool, textPool, commentPool}
      && elementPool.Valid() && textPool.Valid() && commentPool.Valid()
    }

    ghost predicate Owned()
      reads `nodes, nodes`document
    {
      forall n :: n in nodes ==> n.document == this
    }

    ghost predicate Valid(limbo: set<XMLNode>)
      reads `root, `unlinked, `nodes, `rank, nodes`document, elementPool, textPool, commentPool
      reads nodes`parent, nodes`firstChild, nodes`lastChild, nodes`prev, nodes`next, nodes`children
    {
      Pools() && Owned() && Ok(Snapshot(nodes), rank, Books(limbo))
    }

    /** Every item in use in the pool of attributes is one attribute of one element, and is tracked. */
    ghost predicate Attributed()
      reads `nodes, `owner, nodes`attributes, attributePool
    {
      && attributePool.Valid() && attributePool.untracked == 0 && attributePool.live == owner.Keys
      && Listed(Lists(nodes), owner)
      && forall n :: n in nodes && n.memPool != elementPool ==> n.attributes == []
    }

    constructor (perElement: nat, perAttribute: nat, perText: nat, perComment: nat)
      requires perElement > 0 && perAttribute > 0 && perText > 0 && perComment > 0
      ensures Valid({}) && Attributed() && nodes == {root} && unlinked == [] && fresh(root)
      ensures fresh(elementPool) && fresh(attributePool) && fresh(textPool) && fresh(commentPool)
    {
      hide MemPool.Valid, Pools, Owned, Valid, Ok, Attributed;
      elementPool := new MemPool(perElement);
      attributePool := new MemPool(perAttribute);
      textPool := new MemPool(perText);
      commentPool := new MemPool(perComment);
      var node := new XMLNode(null, null, Item(0, 0));
      root, nodes, unlinked, rank, owner := node, {node}, [], map[node := 0], map[];
      new;
      root.document := this;
      ValidAtFirst();
      AttributedAtFirst();
    }

    lemma ValidAtFirst()
      requires elementPool != textPool && elementPool != commentPool && textPool != commentPool
      requires attributePool !in {elementPool, textPool, commentPool}
      requires forall p :: p in {elementPool, textPool, commentPool} ==> p.Valid() && p.live == {} && p.untracked == 0
      requires nodes == {root} && root.document == this && root.memPool == null && root in rank && unlinked == []
      requires root.Val() == Links(None, None, None, None, None, [])
      ensures Valid({})
    {
      hide Ok, MemPool.Valid;
      OkAtFirst(Snapshot(nodes), rank, Books({}));
    }

    lemma AttributedAtFirst()
      requires attributePool.Valid() && attributePool.live == {} && attributePool.untracked == 0
      requires nodes == {root} && root.attributes == [] && owner == map[]
      ensures Attributed()
    {
    }

    lemma PoolsApart()
      requires Pools()
      ensures attributePool !in {elementPool, textPool, commentPool}
    {
    }

    lemma BooksLimbo(limbo: set<XMLNode>, limbo': set<XMLNode>)
      ensures SamePools(Books(limbo), Books(limbo')) && Books(limbo').unlinked == Books(limbo).unlinked
      ensures Books(limbo).limbo == limbo && Books(limbo').limbo == limbo'
    {
    }

    lemma ValidIsWellFormed(limbo: set<XMLNode>)
      requires Valid(limbo)
      ensures WellFormed(Snapshot(nodes), rank)
    {
    }

    /** Takes a node off the list of those in no tree, if it is there. */
    method MarkInUse(node: XMLNode)
      requires NoRepeats(unlinked)
      modifies this`unlinked
      ensures NoRepeats(unlinked)
      ensures forall n :: n in unlinked <==> n in old(unlinked) && n != node
    {
      for i := 0 to |unlinked|
        invariant node !in unlinked[..i] && unlinked == old(unlinked)
      {
        if node == unlinked[i] {
          SwapRemoved(unlinked, i);
          unlinked := SwapRemove(unlinked, i);
          return;
        }
      }
      assert unlinked[..|unlinked|] == unlinked;
    }

    /** A child leaves its parent, in the middle of an operation. */
    method UnlinkChild(child: XMLNode, ghost limbo: set<XMLNode>)
      requires Valid(limbo) && child in nodes && child !in limbo && child.parent != null
      modifies nodes`parent, nodes`firstChild, nodes`lastChild, nodes`prev, nodes`next, nodes`children
      ensures Valid(limbo + {child}) && child.parent == null && child !in unlinked
      ensures old(child.parent) in nodes && Unlinked(old(Snapshot(nodes)), Snapshot(nodes), old(child.parent), child)
    {
      hide Pools, Owned, Ok, WellFormed, Unlinked, NoRepeats, MemPool.Valid, Snapshot, Books, XMLNode.Val;
      hide Housed, Loose, Counted, SamePools;
      ghost var w := Snapshot(nodes);
      FieldsOf(nodes, child);
      OkIsWellFormed(w, rank, Books(limbo));
      Siblings(w, rank, child.parent, child);
      ghost var p := child.parent;
      child.parent.Unlink(child, nodes, rank);
      assert Books(limbo) == old(Books(limbo));
      BooksLimbo(limbo, limbo + {child});
      OkUnlinked(w, Snapshot(nodes), rank, old(Books(limbo)), Books(limbo + {child}), p, child);
      FieldsOf(nodes, child);
    }

    /** A node in no tree is taken off the list, and its pool is told so. */
    method Claim(node: XMLNode)
      requires Valid({}) && node in nodes && node != root && node.parent == null
      modifies this`unlinked, node.memPool`untracked
      ensures Valid({node}) && node !in unlinked
    {
      hide Pools, Owned, Ok, NoRepeats, MemPool.Valid, Snapshot, Books, XMLNode.Val, Housed, Loose, Counted, WellFormed;
      ghost var w, l := Snapshot(nodes), Books({});
      NodeFacts(w, rank, l, node);
      OkIsWellFormed(w, rank, l);
      FieldsOf(nodes, node);
      MarkInUse(node);
      assert Pools() && Owned();
      node.memPool.SetTracked();
      assert Pools() && Owned() && Snapshot(nodes) == w;
      OkClaimed(w, rank, l, Books({node}), node);
    }

    /** Leaves the node in no tree and on no list. */
    method InsertChildPreamble(insertThis: XMLNode)
      requires Valid({}) && insertThis in nodes && insertThis != root
      modifies this`unlinked, {insertThis.memPool}`untracked
      modifies nodes`parent, nodes`firstChild, nodes`lastChild, nodes`prev, nodes`next, nodes`children
      ensures Valid({insertThis}) && insertThis.parent == null && insertThis !in unlinked
      ensures TakenOut(old(Snapshot(nodes)), Snapshot(nodes), insertThis)
    {
      hide Ok, Unlinked, TakenOut, Pools, Owned, WellFormed, Snapshot, XMLNode.Val;
      ghost var w := Snapshot(nodes);
      assert {} + {insertThis} == {insertThis};
      OkIsWellFormed(w, rank, Books({}));
      FieldsOf(nodes, insertThis);
      if insertThis.parent != null {
        ghost var p := insertThis.parent;
        UnlinkChild(insertThis, {});
        UnlinkedIsOut(w, Snapshot(nodes), rank, p, insertThis);
      } else {
        RootIsOut(w, rank, insertThis);
        Claim(insertThis);
      }
    }

    /** Inserting is refused for a node of another document; a node may not go inside itself. */
    ghost predicate Insertable(p: XMLNode, addThis: XMLNode)
      reads `root, `nodes, `rank, nodes, addThis`document
    {
      && p in nodes
      && (addThis.document == this ==>
            addThis in nodes && addThis != root && CanHold(Snapshot(nodes), rank, p, addThis))
    }

    /** The links only; the rest of the document stays. */
    method LinkEndIn(p: XMLNode, addThis: XMLNode)
      requires Pools() && Owned() && addThis.parent == null && CanHold(Snapshot(nodes), rank, p, addThis)
      modifies nodes`parent, nodes`firstChild, nodes`lastChild, nodes`prev, nodes`next, nodes`children
      ensures Pools() && Owned() && Books({addThis}) == old(Books({addThis}))
      ensures Appended(old(Snapshot(nodes)), Snapshot(nodes), p, addThis)
      ensures WellFormed(Snapshot(nodes), MovedRank(old(Snapshot(nodes)), rank, addThis, p))
    {
      hide Appended, Pools, Owned, Snapshot, XMLNode.Val, Books, Below, MovedRank, WellFormed;
      p.LinkEnd(addThis, nodes, rank);
    }

    /** The links only; the rest of the document stays. */
    method LinkFirstIn(p: XMLNode, addThis: XMLNode)
      requires Pools() && Owned() && addThis.parent == null && CanHold(Snapshot(nodes), rank, p, addThis)
      modifies nodes`parent, nodes`firstChild, nodes`lastChild, nodes`prev, nodes`next, nodes`children
      ensures Pools() && Owned() && Books({addThis}) == old(Books({addThis}))
      ensures Prepended(old(Snapshot(nodes)), Snapshot(nodes), p, addThis)
      ensures WellFormed(Snapshot(nodes), MovedRank(old(Snapshot(nodes)), rank, addThis, p))
    {
      hide Prepended, Pools, Owned, Snapshot, XMLNode.Val, Books, Below, MovedRank, WellFormed;
      p.LinkFirst(addThis, nodes, rank);
    }

    /** The links only; the rest of the document stays. */
    method LinkAfterIn(p: XMLNode, afterThis: XMLNode, addThis: XMLNode)
      requires Pools() && Owned() && addThis.parent == null && CanHold(Snapshot(nodes), rank, p, addThis)
      requires afterThis in nodes && afterThis.parent == p && afterThis.next != null
      modifies nodes`parent, nodes`firstChild, nodes`lastChild, nodes`prev, nodes`next, nodes`children
      ensures Pools() && Owned() && Books({addThis}) == old(Books({addThis}))
      ensures PutAfter(old(Snapshot(nodes)), Snapshot(nodes), p, afterThis, addThis)
      ensures WellFormed(Snapshot(nodes), MovedRank(old(Snapshot(nodes)), rank, addThis, p))
    {
      hide PutAfter, Pools, Owned, Snapshot, XMLNode.Val, Books, Below, MovedRank, WellFormed;
      p.LinkAfter(afterThis, addThis, nodes, rank);
    }

    /** New ranks for a node that has come under `p`, which ends the operation. */
    method Settle(p: XMLNode, addThis: XMLNode, ghost w: World<XMLNode>)
      requires Pools() && Owned() && Ok(w, rank, Books({addThis})) && Adopted(w, Snapshot(nodes), p, addThis)
      requires addThis in w && addThis != root && addThis !in unlinked && WellFormed(w, rank)
      requires WellFormed(Snapshot(nodes), MovedRank(w, rank, addThis, p))
      modifies this`rank
      ensures Valid({})
    {
      hide Ok, Adopted, Pools, Owned, Snapshot, Books, MovedRank, WellFormed, SamePools;
      ghost var l, r := Books({addThis}), rank;
      rank := MovedRank(w, r, addThis, p);
      assert Pools() && Owned() && Books({addThis}) == l;
      BooksLimbo({addThis}, {});
      OkAdopted(w, Snapshot(nodes), r, rank, l, Books({}), p, addThis);
    }

    method PlaceEnd(p: XMLNode, addThis: XMLNode)
      requires Valid({addThis}) && addThis.parent == null && addThis !in unlinked && addThis != root
      requires CanHold(Snapshot(nodes), rank, p, addThis)
      modifies this`rank
      modifies nodes`parent, nodes`firstChild, nodes`lastChild, nodes`prev, nodes`next, nodes`children
      ensures Valid({})
      ensures Appended(old(Snapshot(nodes)), Snapshot(nodes), p, addThis)
    {
      hide Ok, Appended, Adopted, Pools, Owned, Snapshot, XMLNode.Val, Books, Below, MovedRank;
      hide WellFormed, SamePools;
      ghost var w := Snapshot(nodes);
      OkIsWellFormed(w, rank, Books({addThis}));
      LinkEndIn(p, addThis);
      AppendedAdopts(w, Snapshot(nodes), p, addThis);
      Settle(p, addThis, w);
    }

    method PlaceFirst(p: XMLNode, addThis: XMLNode)
      requires Valid({addThis}) && addThis.parent == null && addThis !in unlinked && addThis != root
      requires CanHold(Snapshot(nodes), rank, p, addThis)
      modifies this`rank
      modifies nodes`parent, nodes`firstChild, nodes`lastChild, nodes`prev, nodes`next, nodes`children
      ensures Valid({})
      ensures Prepended(old(Snapshot(nodes)), Snapshot(nodes), p, addThis)
    {
      hide Ok, Prepended, Adopted, Pools, Owned, Snapshot, XMLNode.Val, Books, Below, MovedRank;
      hide WellFormed, SamePools;
      ghost var w := Snapshot(nodes);
      OkIsWellFormed(w, rank, Books({addThis}));
      LinkFirstIn(p, addThis);
      PrependedAdopts(w, Snapshot(nodes), p, addThis);
      Settle(p, addThis, w);
    }

    method PlaceAfter(p: XMLNode, afterThis: XMLNode, addThis: XMLNode)
      requires Valid({addThis}) && addThis.parent == null && addThis !in unlinked && addThis != root
      requires CanHold(Snapshot(nodes), rank, p, addThis)
      requires afterThis in nodes && afterThis.parent == p && afterThis.next != null
      modifies this`rank
      modifies nodes`parent, nodes`firstChild, nodes`lastChild, nodes`prev, nodes`next, nodes`children
      ensures Valid({})
      ensures PutAfter(old(Snapshot(nodes)), Snapshot(nodes), p, afterThis, addThis)
    {
      hide Ok, PutAfter, Adopted, Pools, Owned, Snapshot, XMLNode.Val, Books, Below, MovedRank;
      hide WellFormed, SamePools;
      ghost var w := Snapshot(nodes);
      OkIsWellFormed(w, rank, Books({addThis}));
      LinkAfterIn(p, afterThis, addThis);
      PutAfterAdopts(w, Snapshot(nodes), p, afterThis, addThis);
      Settle(p, addThis, w);
    }

    /** The node goes from where it was to the end of the children of `p`. */
    method InsertEndChild(p: XMLNode, addThis: XMLNode) returns (r: XMLNode?)
      requires Valid({}) && Insertable(p, addThis)
      modifies this`unlinked, this`rank, {addThis.memPool}`untracked
      modifies nodes`parent, nodes`firstChild, nodes`lastChild, nodes`prev, nodes`next, nodes`children
      ensures Valid({}) && (r == if addThis.document == this then addThis else null)
      ensures if r == null then Snapshot(nodes) == old(Snapshot(nodes))
              else Moved(old(Snapshot(nodes)), Snapshot(nodes), p, addThis,
                         Without(old(p.children), addThis) + [addThis])
    {
      hide TakenOut, Moved, WellFormed, Snapshot, XMLNode.Val, Appended, CanHold, Valid;
      if addThis.document != this {
        return null;
      }
      ghost var w := Snapshot(nodes);
      FieldsOf(nodes, p);
      InsertChildPreamble(addThis);
      ghost var w1 := Snapshot(nodes);
      ValidIsWellFormed({addThis});
      HoldsWhenOut(w, w1, rank, p, addThis);
      PlaceEnd(p, addThis);
      OutThenAppended(w, w1, Snapshot(nodes), p, addThis);
      return addThis;
    }

    /** The node goes from where it was to the front of the children of `p`. */
    method InsertFirstChild(p: XMLNode, addThis: XMLNode) returns (r: XMLNode?)
      requires Valid({}) && Insertable(p, addThis)
      modifies this`unlinked, this`rank, {addThis.memPool}`untracked
      modifies nodes`parent, nodes`firstChild, nodes`lastChild, nodes`prev, nodes`next, nodes`children
      ensures Valid({}) && (r == if addThis.document == this then addThis else null)
      ensures if r == null then Snapshot(nodes) == old(Snapshot(nodes))
              else Moved(old(Snapshot(nodes)), Snapshot(nodes), p, addThis,
                         [addThis] + Without(old(p.children), addThis))
    {
      hide TakenOut, Moved, WellFormed, Snapshot, XMLNode.Val, Prepended, CanHold, Valid;
      if addThis.document != this {
        return null;
      }
      ghost var w := Snapshot(nodes);
      FieldsOf(nodes, p);
      InsertChildPreamble(addThis);
      ghost var w1 := Snapshot(nodes);
      ValidIsWellFormed({addThis});
      HoldsWhenOut(w, w1, rank, p, addThis);
      PlaceFirst(p, addThis);
      OutThenPrepended(w, w1, Snapshot(nodes), p, addThis);
      return addThis;
    }

    /** The node goes from where it was to behind `afterThis`.  The source looks at the node after
        `afterThis` before it takes `addThis` out, so it runs into a null pointer exactly when
        `addThis` is the last child and directly behind `afterThis`. */
    method InsertAfterChild(p: XMLNode, afterThis: XMLNode, addThis: XMLNode) returns (o: Outcome)
      requires Valid({}) && Insertable(p, addThis) && (afterThis.parent == p ==> afterThis in nodes)
      modifies this`unlinked, this`rank, {addThis.memPool}`untracked
      modifies nodes`parent, nodes`firstChild, nodes`lastChild, nodes`prev, nodes`next, nodes`children
      ensures o == Refused <==> addThis.document != this || old(afterThis.parent) != p
      ensures o == NullDereference <==>
                && addThis.document == this && old(afterThis.parent) == p && afterThis != addThis
                && old(afterThis.next) == addThis && old(addThis.next) == null
      ensures o != NullDereference ==> Valid({})
      ensures o == Refused || (o == Inserted && afterThis == addThis) ==> Snapshot(nodes) == old(Snapshot(nodes))
      ensures o == Inserted && afterThis != addThis ==>
                Moved(old(Snapshot(nodes)), Snapshot(nodes), p, addThis,
                      WithAfter(Without(old(p.children), addThis), afterThis, addThis))
    {
      hide TakenOut, Moved, WellFormed, Snapshot, XMLNode.Val, PutAfter, CanHold, Valid;
      if addThis.document != this || afterThis.parent != p {
        return Refused;
      }
      if afterThis == addThis {
        return Inserted;
      }
      ghost var w := Snapshot(nodes);
      ValidIsWellFormed({});
      FieldsOf(nodes, p);
      FieldsOf(nodes, afterThis);
      FieldsOf(nodes, addThis);
      if afterThis.next == null {
        AfterLastIsEnd(w, rank, p, afterThis, addThis);
        var r := InsertEndChild(p, addThis);
        return Inserted;
      }
      InsertChildPreamble(addThis);
      ghost var w1 := Snapshot(nodes);
      ValidIsWellFormed({addThis});
      FieldsOf(nodes, afterThis);
      NextWhenOut(w, w1, rank, p, afterThis, addThis);
      if afterThis.next == null {
        return NullDereference;
      }
      HoldsWhenOut(w, w1, rank, p, addThis);
      PlaceAfter(p, afterThis, addThis);
      OutThenPutAfter(w, w1, Snapshot(nodes), p, afterThis, addThis);
      return Inserted;
    }

    lemma AttributedBy(lists: map<XMLNode, seq<Attribute>>)
      requires attributePool.Valid() && attributePool.untracked == 0 && attributePool.live == owner.Keys
      requires Listed(lists, owner) && lists.Keys == nodes && forall n :: n in nodes ==> n.attributes == lists[n]
      requires forall n :: n in nodes && n.memPool != elementPool ==> lists[n] == []
      ensures Attributed()
    {
      hide MemPool.Valid, Listed;
      assert Lists(nodes) == lists;
    }

    /** `CreateAttribute` and linking: the attribute comes last. */
    method AddAttribute(element: XMLNode, name: string)
      requires Attributed() && element in nodes && element.memPool == elementPool
      requires forall a :: a in element.attributes ==> a.name != name
      modifies attributePool, this`owner, element`attributes
      ensures Attributed() && |element.attributes| == |old(element.attributes)| + 1
      ensures element.attributes[..|old(element.attributes)|] == old(element.attributes)
      ensures element.attributes[|old(element.attributes)|].name == name
    {
      hide MemPool.Valid, Listed, Lists;
      ghost var lists := Lists(nodes);
      var slot := attributePool.Alloc();
      attributePool.SetTracked();
      ListedAdded(lists, owner, element, Attribute(name, slot));
      element.attributes := element.attributes + [Attribute(name, slot)];
      owner := owner[slot := element];
      AttributedBy(lists[element := element.attributes]);
    }

    /** The attribute of that name, made at the end if there is none. */
    method FindOrCreateAttribute(element: XMLNode, name: string) returns (i: nat)
      requires Attributed() && element in nodes && element.memPool == elementPool
      modifies attributePool, this`owner, element`attributes
      ensures Attributed() && i < |element.attributes| && element.attributes[i].name == name
      ensures (exists a :: a in old(element.attributes) && a.name == name) ==>
                element.attributes == old(element.attributes)
      ensures !(exists a :: a in old(element.attributes) && a.name == name) ==>
                i == |element.attributes| - 1 && element.attributes[..i] == old(element.attributes)
    {
      hide Attributed;
      i := 0;
      while i < |element.attributes| && element.attributes[i].name != name
        invariant i <= |element.attributes| && forall k :: 0 <= k < i ==> element.attributes[k].name != name
      {
        i := i + 1;
      }
      if i == |element.attributes| {
        AddAttribute(element, name);
      }
    }

    /** The attribute leaves the list, and its item goes back. */
    method DropAttribute(element: XMLNode, k: nat)
      requires Attributed() && element in nodes && k < |element.attributes|
      modifies attributePool, this`owner, element`attributes
      ensures Attributed() && element.attributes == DropAt(old(element.attributes), k)
    {
      hide MemPool.Valid, Listed, Lists;
      ghost var lists := Lists(nodes);
      ListedDropped(lists, owner, element, k);
      var slot := element.attributes[k].slot;
      element.attributes := element.attributes[..k] + element.attributes[k + 1..];
      attributePool.Free(slot);
      owner := owner - {slot};
      AttributedBy(lists[element := element.attributes]);
    }

    lemma OwnAttributes(element: XMLNode)
      requires Attributed() && element in nodes
      ensures OwnList(element.attributes, owner, element)
    {
      assert OwnList(Lists(nodes)[element], owner, element);
    }

    /** Afterwards no attribute has the name, and the others are as they were, in their order. */
    method DeleteAttribute(element: XMLNode, name: string)
      requires Attributed() && element in nodes && element.memPool == elementPool
      modifies attributePool, this`owner, element`attributes
      ensures Attributed() && forall a :: a in element.attributes <==> a in old(element.attributes) && a.name != name
      ensures (forall a :: a in old(element.attributes) ==> a.name != name) ==>
                element.attributes == old(element.attributes)
      ensures forall k :: 0 <= k < |old(element.attributes)| && old(element.attributes)[k].name == name ==>
                element.attributes == DropAt(old(element.attributes), k)
    {
      hide Attributed, OwnList, DropAt;
      ghost var was, owners := element.attributes, owner;
      OwnAttributes(element);
      for i := 0 to |element.attributes|
        invariant element.attributes == was && Attributed()
        invariant forall k :: 0 <= k < i ==> was[k].name != name
      {
        if element.attributes[i].name == name {
          DroppedByName(was, owners, element, i, name);
          DropAttribute(element, i);
          return;
        }
      }
    }

    /** `~XMLElement`; other nodes have no attributes. */
    method FreeAttributes(node: XMLNode)
      requires Attributed() && node in nodes
      modifies attributePool, this`owner, node`attributes
      ensures Attributed() && node.attributes == []
    {
      hide Attributed;
      while node.attributes != []
        invariant Attributed()
        decreases |node.attributes|
      {
        DropAttribute(node, 0);
      }
    }

    /** One item is taken from one pool. */
    method AllocSlot(pool: MemPool, ghost limbo: set<XMLNode>) returns (slot: Item)
      requires Pools() && pool in {elementPool, textPool, commentPool}
      modifies pool
      ensures Pools() && slot !in old(pool.live) && PoolTaken(old(Books(limbo)), Books(limbo), pool, slot)
    {
      hide MemPool.Valid, Books;
      slot := pool.Alloc();
    }

    /** A node joins the list of those in no tree. */
    method Enlist(node: XMLNode, ghost limbo: set<XMLNode>)
      requires Pools() && Attributed() && node !in nodes && node.attributes == []
      modifies this`unlinked, this`nodes, this`rank
      ensures Pools() && Attributed()
      ensures unlinked == old(unlinked) + [node] && nodes == old(nodes) + {node} && rank == old(rank)[node := 0]
      ensures SamePools(old(Books(limbo)), Books(limbo)) && Books(limbo).unlinked == old(Books(limbo)).unlinked + [node]
      ensures Books(limbo).limbo == old(Books(limbo)).limbo
    {
      hide Books, Pools, Listed, MemPool.Valid, Lists;
      ghost var lists := Lists(nodes);
      ListedWith(lists, owner, node);
      unlinked := unlinked + [node];
      nodes, rank := nodes + {node}, rank[node := 0];
      AttributedBy(lists[node := []]);
    }

    /** The node is made in a new slot; the document does not know it yet. */
    method NewNode(pool: MemPool, ghost limbo: set<XMLNode>) returns (node: XMLNode)
      requires Pools() && Attributed() && pool in {elementPool, textPool, commentPool}
      modifies pool
      ensures Pools() && Attributed() && fresh(node) && node.memPool == pool && node.slot !in old(pool.live)
      ensures node.document == this && node.Val() == Links(None, None, None, None, None, []) && node.attributes == []
      ensures PoolTaken(old(Books(limbo)), Books(limbo), pool, node.slot)
    {
      hide Pools, Books, XMLNode.Val, PoolTaken, Attributed;
      PoolsApart();
      var slot := AllocSlot(pool, limbo);
      node := new XMLNode(this, pool, slot);
    }

    /** The node is made in a new slot and put on the list. */
    method AllocNode(pool: MemPool, ghost limbo: set<XMLNode>) returns (node: XMLNode)
      requires Pools() && Attributed() && pool in {elementPool, textPool, commentPool}
      modifies this`unlinked, this`nodes, this`rank, pool
      ensures Pools() && Attributed() && fresh(node) && unlinked == old(unlinked) + [node]
      ensures nodes == old(nodes) + {node} && rank == old(rank)[node := 0]
      ensures node.memPool == pool && node.slot !in old(pool.live) && node.document == this
      ensures node.Val() == Links(None, None, None, None, None, []) && node.attributes == []
      ensures PoolGrown(old(Books(limbo)), Books(limbo), node)
    {
      hide Pools, Books, XMLNode.Val, PoolTaken, PoolGrown, SamePools, Attributed;
      ghost var l := Books(limbo);
      node := NewNode(pool, limbo);
      ghost var m := Books(limbo);
      Enlist(node, limbo);
      TakenThenListed(l, m, Books(limbo), node);
    }

    method FreeTo(pool: MemPool, slot: Item, ghost limbo: set<XMLNode>)
      requires Pools() && pool in {elementPool, textPool, commentPool} && slot in pool.live
      modifies pool
      ensures Pools() && PoolShrunk(old(Books(limbo)), Books(limbo), pool, slot)
    {
      hide MemPool.Valid, Books;
      pool.Free(slot);
    }

    /** `NewElement`, `NewText` and the others differ in the pool only. */
    method CreateUnlinkedNode(pool: MemPool) returns (node: XMLNode)
      requires Valid({}) && Attributed() && pool in {elementPool, textPool, commentPool}
      modifies this`unlinked, this`nodes, this`rank, pool
      ensures Attributed() && node.attributes == []
      ensures Valid({}) && fresh(node) && nodes == old(nodes) + {node} && unlinked == old(unlinked) + [node]
      ensures node.memPool == pool && node.slot !in old(pool.live) && node.document == this
      ensures Snapshot(nodes) == old(Snapshot(nodes))[node := Links(None, None, None, None, None, [])]
    {
      hide Ok, Snapshot, XMLNode.Val, Books, Pools, PoolGrown, Attributed;
      ghost var w, l, before, r := Snapshot(nodes), Books({}), nodes, rank;
      node := AllocNode(pool, {});
      assert Snapshot(before) == w;
      SnapshotAdds(before, node);
      OkCreated(w, Snapshot(nodes), r, l, Books({}), node);
    }

    /** The node, which has no attributes, leaves the document's set of nodes. */
    method Unlearn(node: XMLNode)
      requires Attributed() && node in nodes && node.attributes == []
      modifies this`nodes
      ensures Attributed() && nodes == old(nodes) - {node}
    {
      hide Listed, MemPool.Valid, Lists;
      ghost var lists := Lists(nodes);
      ListedWithout(lists, owner, node);
      nodes := nodes - {node};
      AttributedBy(lists - {node});
    }

    /** A node without attributes is none of the document's any more. */
    method Forget(node: XMLNode, ghost limbo: set<XMLNode>)
      requires Pools() && Owned() && Attributed() && node in nodes && node.attributes == []
      modifies this`nodes
      ensures Pools() && Owned() && Attributed() && nodes == old(nodes) - {node}
      ensures Books(limbo) == old(Books(limbo)) && Snapshot(nodes) == old(Snapshot(nodes)) - {node}
    {
      hide Pools, Books, Attributed, Snapshot;
      ghost var before := nodes;
      Unlearn(node);
      SnapshotDrops(before, node);
    }

    /** A node that is nowhere gives its memory back. */
    method Release(node: XMLNode, ghost limbo: set<XMLNode>)
      requires Valid(limbo) && node in limbo && node != root && node in nodes
      requires node.children == [] && node !in unlinked
      requires Attributed() && node.attributes == []
      modifies this`nodes, elementPool, textPool, commentPool
      ensures Valid(limbo - {node}) && Attributed() && nodes == old(nodes) - {node}
      ensures Snapshot(nodes) == old(Snapshot(nodes)) - {node}
    {
      hide Ok, Snapshot, XMLNode.Val, Books, Pools, PoolShrunk, SamePools, Owned, Attributed;
      ghost var w, l := Snapshot(nodes), Books(limbo);
      PoolsApart();
      NodeFacts(w, rank, l, node);
      FieldsOf(nodes, node);
      FreeTo(node.memPool, node.slot, limbo);
      ghost var m := Books(limbo);
      Forget(node, limbo);
      BooksLimbo(limbo, limbo - {node});
      OkFreed(w, Snapshot(nodes), rank, l, m, Books(limbo - {node}), node);
    }

    /** What `MarkInUse` leaves of the books. */
    method Unbook(node: XMLNode, ghost limbo: set<XMLNode>)
      requires NoRepeats(unlinked)
      modifies this`unlinked
      ensures NoRepeats(unlinked) && forall n :: n in unlinked <==> n in old(unlinked) && n != node
      ensures SamePools(old(Books(limbo)), Books(limbo)) && Books(limbo).unlinked == unlinked
    {
      hide Books;
      MarkInUse(node);
    }

    /** `MarkInUse` on a node that is being deleted. */
    method Unlist(node: XMLNode, ghost limbo: set<XMLNode>)
      requires Valid(limbo) && node in limbo
      modifies this`unlinked
      ensures Valid(limbo) && node !in unlinked && forall x :: x in unlinked ==> x in old(unlinked)
    {
      hide Ok, Snapshot, Books, Pools, Owned, NoRepeats, SamePools;
      ghost var w, l := Snapshot(nodes), Books(limbo);
      OkIsWellFormed(w, rank, l);
      Unbook(node, limbo);
      OkUnlisted(w, rank, l, Books(limbo), node);
    }

    /** What `XMLNode::DeleteNode` does before the children go. */
    method Strip(node: XMLNode, ghost limbo: set<XMLNode>)
      requires Valid(limbo) && Attributed() && node in limbo && node in nodes
      modifies this`unlinked, attributePool, this`owner, node`attributes
      ensures Valid(limbo) && Attributed() && node !in unlinked && node.attributes == []
      ensures forall x :: x in unlinked ==> x in old(unlinked)
    {
      hide Valid, Attributed;
      PoolsOf(limbo);
      Unlist(node, limbo);
      FreeAttributes(node);
    }

    /** `XMLNode::DeleteNode` on a node that is in no tree; what is inside it lies in `todo`. */
    method DeleteDetached(node: XMLNode, ghost limbo: set<XMLNode>, ghost todo: set<XMLNode>)
      requires Valid(limbo) && Attributed() && node in limbo && node != root
      requires node in todo && root !in todo && ClosedBelow(Snapshot(nodes), todo)
      modifies this`unlinked, this`nodes, this`owner, elementPool, attributePool, textPool, commentPool
      modifies nodes`attributes
      modifies nodes`parent, nodes`firstChild, nodes`lastChild, nodes`prev, nodes`next, nodes`children
      ensures Valid(limbo - {node}) && node !in nodes && nodes <= old(nodes) && old(nodes) - todo <= nodes
      ensures forall n :: n in nodes ==> Snapshot(nodes)[n] == old(Snapshot(nodes))[n]
      ensures Attributed() && forall n :: n in nodes ==> n.attributes == old(n.attributes)
      ensures forall x :: x in unlinked ==> x in old(unlinked)
      decreases |todo|, 1
    {
      hide Ok, Snapshot, XMLNode.Val, Books, WellFormed, Pools, Owned, ClosedBelow, Valid, Attributed;
      ghost var w := Snapshot(nodes);
      ValidIsWellFormed(limbo);
      LimboFacts(limbo, node);
      FieldsOf(nodes, node);
      Strip(node, limbo);
      ClosedWithout(w, rank, todo, node);
      DeleteChildren(node, limbo, todo - {node});
      Release(node, limbo);
    }

    lemma PoolsOf(limbo: set<XMLNode>)
      requires Valid(limbo)
      ensures attributePool !in {elementPool, textPool, commentPool}
    {
    }

    lemma LimboFacts(limbo: set<XMLNode>, n: XMLNode)
      requires Valid(limbo) && n in limbo
      ensures n in nodes && n.parent == null && Snapshot(nodes)[n].parent == None
    {
    }

    /** `DeleteChild`; the assertions are the source's. */
    method DeleteChild(p: XMLNode, child: XMLNode, ghost limbo: set<XMLNode>, ghost todo: set<XMLNode>)
      requires Valid(limbo) && Attributed() && p in nodes && child in nodes && child.parent == p
      requires child in todo && p !in todo && root !in todo && ClosedBelow(Snapshot(nodes), todo)
      modifies this`unlinked, this`nodes, this`owner, elementPool, attributePool, textPool, commentPool
      modifies nodes`attributes
      modifies nodes`parent, nodes`firstChild, nodes`lastChild, nodes`prev, nodes`next, nodes`children
      ensures Valid(limbo) && child !in nodes && nodes <= old(nodes) && old(nodes) - todo <= nodes
      ensures forall n :: n in nodes ==> UnlinkedNode(old(Snapshot(nodes)), Snapshot(nodes)[n], p, child, n)
      ensures Attributed() && forall n :: n in nodes ==> n.attributes == old(n.attributes)
      ensures forall x :: x in unlinked ==> x in old(unlinked)
      decreases |todo|, 2
    {
      hide Ok, Snapshot, XMLNode.Val, Books, WellFormed, Pools, Owned, ClosedBelow, UnlinkedNode, Attributed;
      ghost var w := Snapshot(nodes);
      OkIsWellFormed(w, rank, Books(limbo));
      FieldsOf(nodes, child);
      if child in limbo {
        LimboIsDetached(w, rank, Books(limbo), child);
      }
      UnlinkChild(child, limbo);
      ghost var w1 := Snapshot(nodes);
      assert child.parent == null;
      forall n | n in w1 && n != p
        ensures w1[n].kids == w[n].kids
      {
        UnlinkTouches(w, w1[n], rank, p, child, n);
      }
      ClosedAfter(w, w1, todo, p);
      DeleteDetached(child, limbo + {child}, todo);
      assert limbo + {child} - {child} == limbo;
    }

    /** One round of the loop of `DeleteChildren`. */
    method DeleteFirstChild(node: XMLNode, ghost limbo: set<XMLNode>, ghost todo: set<XMLNode>)
      requires Valid(limbo) && Attributed() && node in nodes && node !in todo && root !in todo
      requires node.firstChild != null
      requires ClosedBelow(Snapshot(nodes), todo) && forall k :: k in Snapshot(nodes)[node].kids ==> k in todo
      modifies this`unlinked, this`nodes, this`owner, elementPool, attributePool, textPool, commentPool
      modifies nodes`attributes
      modifies nodes`parent, nodes`firstChild, nodes`lastChild, nodes`prev, nodes`next, nodes`children
      ensures Valid(limbo) && nodes < old(nodes) && old(nodes) - todo <= nodes
      ensures OneChildLess(old(Snapshot(nodes)), Snapshot(nodes), node, todo)
      ensures Attributed() && forall n :: n in nodes ==> n.attributes == old(n.attributes)
      ensures forall x :: x in unlinked ==> x in old(unlinked)
      decreases |todo|, 3
    {
      hide Ok, Snapshot, XMLNode.Val, Books, WellFormed, Pools, Owned, ClosedBelow, UnlinkedNode, Valid;
      hide OneChildLess, Attributed;
      ghost var w, r, child := Snapshot(nodes), rank, node.firstChild;
      ValidIsWellFormed(limbo);
      FieldsOf(nodes, node);
      Ends(w, r, node);
      FieldsOf(nodes, child);
      DeleteChild(node, node.firstChild, limbo, todo);
      ChildIsGone(w, Snapshot(nodes), r, node, child, todo);
    }

    method DeleteChildren(node: XMLNode, ghost limbo: set<XMLNode>, ghost todo: set<XMLNode>)
      requires Valid(limbo) && Attributed() && node in nodes && node !in todo && root !in todo
      requires ClosedBelow(Snapshot(nodes), todo) && forall k :: k in node.children ==> k in todo
      modifies this`unlinked, this`nodes, this`owner, elementPool, attributePool, textPool, commentPool
      modifies nodes`attributes
      modifies nodes`parent, nodes`firstChild, nodes`lastChild, nodes`prev, nodes`next, nodes`children
      ensures Valid(limbo) && node in nodes && node.children == [] && nodes <= old(nodes) && old(nodes) - todo <= nodes
      ensures forall n :: n in nodes && n != node ==> Snapshot(nodes)[n] == old(Snapshot(nodes))[n]
      ensures Attributed() && forall n :: n in nodes ==> n.attributes == old(n.attributes)
      ensures forall x :: x in unlinked ==> x in old(unlinked)
      decreases |todo|, 4
    {
      hide Ok, Snapshot, XMLNode.Val, Books, WellFormed, Pools, Owned, ClosedBelow, Valid, Attributed;
      FieldsOf(nodes, node);
      while node.firstChild != null
        invariant Valid(limbo) && node in nodes && nodes <= old(nodes) && old(nodes) - todo <= nodes
        invariant Attributed() && forall n :: n in nodes ==> n.attributes == old(n.attributes)
        invariant forall x :: x in unlinked ==> x in old(unlinked)
        invariant ClosedBelow(Snapshot(nodes), todo) && forall k :: k in Snapshot(nodes)[node].kids ==> k in todo
        invariant forall n :: n in nodes && n != node && n !in Snapshot(nodes)[node].kids ==>
                    Snapshot(nodes)[n] == old(Snapshot(nodes))[n]
        decreases nodes
      {
        DeleteFirstChild(node, limbo, todo);
      }
      ValidIsWellFormed(limbo);
      FieldsOf(nodes, node);
      Ends(Snapshot(nodes), rank, node);
    }

    /** A node on the list is told to its pool, and stays on the list. */
    method Track(node: XMLNode)
      requires Valid({}) && node in nodes && node != root && node.parent == null
      modifies node.memPool`untracked
      ensures Valid({node})
    {
      hide Pools, Owned, Ok, NoRepeats, MemPool.Valid, Snapshot, Books, XMLNode.Val, Housed, Loose, Counted, WellFormed;
      ghost var w, l := Snapshot(nodes), Books({});
      NodeFacts(w, rank, l, node);
      FieldsOf(nodes, node);
      node.memPool.SetTracked();
      assert Pools() && Owned() && Snapshot(nodes) == w;
      OkTracked(w, rank, l, Books({node}), node);
    }

    /** `XMLDocument::DeleteNode`, on which the parser's removal of a read end tag comes down too:
        exactly the node and what is inside it are gone. */
    method DeleteNode(node: XMLNode)
      requires Valid({}) && Attributed() && node in nodes && node != root
      modifies this`unlinked, this`nodes, this`owner, elementPool, attributePool, textPool, commentPool
      modifies nodes`attributes
      modifies nodes`parent, nodes`firstChild, nodes`lastChild, nodes`prev, nodes`next, nodes`children
      ensures Valid({}) && Gone(old(Snapshot(nodes)), Snapshot(nodes), node)
      ensures Attributed() && forall n :: n in nodes ==> n.attributes == old(n.attributes)
      ensures nodes == old(nodes) - Subtree(old(Snapshot(nodes)), rank, node)
    {
      hide Ok, Snapshot, XMLNode.Val, Books, WellFormed, Pools, Owned, ClosedBelow, UnlinkedNode, Valid;
      hide Subtree, Gone, Attributed;
      ghost var w, r := Snapshot(nodes), rank;
      ValidIsWellFormed({});
      RootFacts({});
      ghost var todo := Subtree(w, r, node);
      SubtreeClosed(w, r, node);
      FieldsOf(nodes, node);
      SubtreeHasNot(w, r, node, root);
      if node.parent != null {
        ghost var p := node.parent;
        DeleteChild(node.parent, node, {}, todo);
        ChildGone(w, Snapshot(nodes), r, p, node);
      } else {
        NodePool({}, node);
        PoolsOf({});
        Track(node);
        DeleteDetached(node, {node}, todo);
        assert {node} - {node} == {};
        DetachedGone(w, Snapshot(nodes), r, node);
      }
      ValidIsWellFormed({});
      GoneWithAll(w, Snapshot(nodes), r, node);
    }

    lemma NodePool(limbo: set<XMLNode>, n: XMLNode)
      requires Valid(limbo) && n in nodes && n != root
      ensures n.memPool in {elementPool, textPool, commentPool}
    {
    }

    lemma RootFacts(limbo: set<XMLNode>)
      requires Valid(limbo)
      ensures root in nodes && Snapshot(nodes)[root].parent == None
    {
    }

    /** `Clear`: nothing but the document's own node remains, and every pool counts as many items in
        use as untracked ones, none. */
    method Clear()
      requires Valid({}) && Attributed()
      modifies this`unlinked, this`nodes, this`owner, elementPool, attributePool, textPool, commentPool
      modifies nodes`attributes
      modifies nodes`parent, nodes`firstChild, nodes`lastChild, nodes`prev, nodes`next, nodes`children
      ensures Valid({}) && Attributed() && nodes == {root} && unlinked == []
      ensures elementPool.currentAllocs == elementPool.untracked == 0
      ensures attributePool.currentAllocs == attributePool.untracked == 0
      ensures textPool.currentAllocs == textPool.untracked == 0
      ensures commentPool.currentAllocs == commentPool.untracked == 0
    {
      hide Ok, Snapshot, XMLNode.Val, Books, WellFormed, Pools, Owned, Valid, Subtree, Gone, Attributed;
      ValidIsWellFormed({});
      RootFacts({});
      FieldsOf(nodes, root);
      AllClosed(Snapshot(nodes), rank);
      ClosedWithout(Snapshot(nodes), rank, nodes, root);
      DeleteChildren(root, {}, nodes - {root});
      FieldsOf(nodes, root);
      while |unlinked| != 0
        invariant Valid({}) && Attributed() && nodes <= old(nodes) && root in nodes && Snapshot(nodes)[root].kids == []
        decreases nodes
      {
        ghost var w, gone := Snapshot(nodes), unlinked[0];
        ValidIsWellFormed({});
        FirstIsLoose();
        SubtreeClosed(w, rank, unlinked[0]);
        DeleteNode(unlinked[0]);
        RootFacts({});
        GoneKids(w, Snapshot(nodes), gone, root);
      }
      NothingElse();
      NoAttributesLeft();
    }

    lemma FirstIsLoose()
      requires Valid({}) && unlinked != []
      ensures unlinked[0] in nodes && unlinked[0] != root
    {
    }

    lemma NoAttributesLeft()
      requires Attributed() && nodes == {root} && root.memPool == null
      ensures attributePool.currentAllocs == attributePool.untracked == 0
    {
    }

    lemma NothingElse()
      requires Valid({}) && unlinked == [] && Snapshot(nodes)[root].kids == []
      ensures nodes == {root} && root.memPool == null
      ensures forall p :: p in {elementPool, textPool, commentPool} ==> p.currentAllocs == p.untracked == 0
    {
      var w, l := Snapshot(nodes), Books({});
      AloneInBooks(w, rank, l);
      forall p | p in {elementPool, textPool, commentPool}
        ensures p.currentAllocs == p.untracked == 0
      {
        assert l.live[p] == {};
      }
    }

    lemma WaitingAreOut(pool: MemPool)
      requires Valid({}) && pool in {elementPool, textPool, commentPool}
      ensures Waiting(unlinked, {}, pool) == set n | n in nodes && n.memPool == pool && n.parent == null
    {
      hide WellFormed, Housed, Counted, NoRepeats, Pools, Owned, Snapshot, XMLNode.Val;
      RootHasNoPool();
      forall n | n in nodes
        ensures Snapshot(nodes)[n].parent == Ref(n.parent)
      {
        FieldsOf(nodes, n);
      }
    }

    lemma RootHasNoPool()
      requires Valid({})
      ensures root in nodes && root.memPool == null
    {
    }

    /** Conservation: every pool of nodes has as many items in use as it has nodes alive, and counts as
        untracked as many as are in no tree. */
    lemma Conservation(pool: MemPool)
      requires Valid({}) && pool in {elementPool, textPool, commentPool}
      ensures pool.currentAllocs == |NodesOf(nodes, pool)|
      ensures pool.untracked == |set n | n in nodes && n.memPool == pool && n.parent == null|
    {
      LiveCount(nodes, pool);
      WaitingAreOut(pool);
    }

    /** Conservation: as many items of the pool of attributes are in use as the elements have attributes. */
    lemma AttributeConservation()
      requires Attributed()
      ensures attributePool.currentAllocs == |Places(Lists(nodes))| && attributePool.untracked == 0
    {
      hide Listed;
      OwnedCount(Lists(nodes), owner);
    }
  }
}
