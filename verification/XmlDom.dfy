/**
  The nodes of a document, linked and unlinked in place, and the pools they are allocated from.
*/
module XmlDom {
  import opened Wrappers
  import opened SiblingLists
  import opened NodeWorlds
  import opened MemPools

  /** An attribute by its name and the item it lives in; its value is the matter of the text itself. */
  datatype Attribute = Attribute(name: string, slot: Item)

  ghost function Ref(n: XMLNode?): Option<XMLNode> {
    if n == null then None else Some(n)
  }

  ghost function Snapshot(nodes: set<XMLNode>): (w: World<XMLNode>)
    reads nodes`parent, nodes`firstChild, nodes`lastChild, nodes`prev, nodes`next, nodes`children
    ensures w.Keys == nodes && forall n :: n in nodes ==> w[n] == n.Val()
  {
    map n | n in nodes :: n.Val()
  }

  lemma FieldsOf(nodes: set<XMLNode>, n: XMLNode)
    requires n in nodes
    ensures Snapshot(nodes)[n].parent == Ref(n.parent) && Snapshot(nodes)[n].kids == n.children
    ensures Snapshot(nodes)[n].next == Ref(n.next) && Snapshot(nodes)[n].first == Ref(n.firstChild)
  {
  }

  lemma SnapshotAdds(nodes: set<XMLNode>, n: XMLNode)
    ensures Snapshot(nodes + {n}) == Snapshot(nodes)[n := n.Val()]
  {
  }

  lemma SnapshotDrops(nodes: set<XMLNode>, n: XMLNode)
    ensures Snapshot(nodes - {n}) == Snapshot(nodes) - {n}
  {
  }

  /** What the links of a child say about its siblings. */
  lemma Siblings(w: World<XMLNode>, rank: map<XMLNode, nat>, p: XMLNode, c: XMLNode)
    requires WellFormed(w, rank) && c in w && w[c].parent == Some(p)
    ensures p in w && w[c].prev != Some(c) && w[c].next != Some(c) && p != c
    ensures w[c].prev.Some? ==> w[c].prev.value in w
    ensures w[c].next.Some? ==> w[c].next.value in w
  {
    assert PlaceOk(w, rank, c) && ListOk(w, p);
    AfterMember(w[p].kids, c);
    BeforeMember(None, w[p].kids, c);
  }

  lemma Apart(w: World<XMLNode>, rank: map<XMLNode, nat>, n: XMLNode, a: XMLNode)
    requires WellFormed(w, rank) && n in w && !Below(w, rank, n, a)
    ensures n != a
  {
  }

  lemma NextHasParent(w: World<XMLNode>, rank: map<XMLNode, nat>, p: XMLNode, c: XMLNode)
    requires WellFormed(w, rank) && c in w && w[c].parent == Some(p) && w[c].next.Some?
    ensures w[c].next.value in w && w[w[c].next.value].parent == Some(p)
  {
    assert PlaceOk(w, rank, c) && ListOk(w, p);
    AfterMember(w[p].kids, c);
  }

  lemma Ends(w: World<XMLNode>, rank: map<XMLNode, nat>, p: XMLNode)
    requires WellFormed(w, rank) && p in w
    ensures p in rank && (w[p].first == None <==> w[p].last == None)
    ensures w[p].first == None ==> w[p].kids == []
    ensures w[p].first.Some? ==> w[p].first.value in w[p].kids
    ensures w[p].first.Some? ==>
              var f, l := w[p].first.value, w[p].last.value;
              && f in w && l in w && w[f].parent == Some(p) && w[l].parent == Some(p)
              && w[f].prev == None && w[l].next == None
  {
    assert ListOk(w, p) && PlaceOk(w, rank, p);
    if w[p].first.Some? {
      var f, l := w[p].first.value, w[p].last.value;
      assert PlaceOk(w, rank, f) && PlaceOk(w, rank, l);
      FirstHasNoBefore(w[p].kids, f);
      LastHasNoAfter(w[p].kids, l);
    }
  }

  class XMLNode {
    var document: object?
    const memPool: MemPool?
    const slot: Item
    var parent: XMLNode?
    var firstChild: XMLNode?
    var lastChild: XMLNode?
    var prev: XMLNode?
    var next: XMLNode?
    var attributes: seq<Attribute>
    ghost var children: seq<XMLNode>

    constructor (document: object?, memPool: MemPool?, slot: Item)
      ensures this.document == document && this.memPool == memPool && this.slot == slot
      ensures Val() == Links(None, None, None, None, None, []) && attributes == []
    {
      this.document, this.memPool, this.slot := document, memPool, slot;
      parent, firstChild, lastChild, prev, next := null, null, null, null, null;
      children, attributes := [], [];
    }

    ghost function Val(): Links<XMLNode>
      reads `parent, `firstChild, `lastChild, `prev, `next, `children
    {
      Links(Ref(parent), Ref(firstChild), Ref(lastChild), Ref(prev), Ref(next), children)
    }

    /** The assignments of `Unlink`. */
    method Detach(child: XMLNode)
      requires child != this && child.parent == this && child.prev != child && child.next != child
      modifies this`firstChild, this`lastChild, this`children
      modifies {child.prev}`next, {child.next}`prev, child`next, child`prev, child`parent
      ensures firstChild == if old(firstChild) == child then old(child.next) else old(firstChild)
      ensures lastChild == if old(lastChild) == child then old(child.prev) else old(lastChild)
      ensures children == Without(old(children), child)
      ensures child.next == null && child.prev == null && child.parent == null
      ensures old(child.prev) != null ==> old(child.prev).next == old(child.next)
      ensures old(child.next) != null ==> old(child.next).prev == old(child.prev)
    {
      if child == firstChild {
        firstChild := firstChild.next;
      }
      if child == lastChild {
        lastChild := lastChild.prev;
      }
      if child.prev != null {
        child.prev.next := child.next;
      }
      if child.next != null {
        child.next.prev := child.prev;
      }
      child.next := null;
      child.prev := null;
      child.parent := null;
      children := Without(children, child);
    }

    method Unlink(child: XMLNode, ghost nodes: set<XMLNode>, ghost rank: map<XMLNode, nat>)
      requires WellFormed(Snapshot(nodes), rank) && this in nodes && child in nodes && child.parent == this
      modifies nodes`parent, nodes`firstChild, nodes`lastChild, nodes`prev, nodes`next, nodes`children
      ensures Unlinked(old(Snapshot(nodes)), Snapshot(nodes), this, child)
      ensures WellFormed(Snapshot(nodes), rank)
    {
      hide WellFormed, Without;
      ghost var w := Snapshot(nodes);
      assert w[child] == child.Val() && w[this] == Val();
      Siblings(w, rank, this, child);
      Detach(child);
      forall n | n in nodes
        ensures UnlinkedNode(w, n.Val(), this, child, n)
      {
        assert w[n] == old(n.Val());
      }
      UnlinkKeeps(w, Snapshot(nodes), rank, this, child);
    }

    /** The assignments of `InsertEndChild` after its preamble; the assertions are the source's. */
    method AttachEnd(addThis: XMLNode)
      requires addThis != this && lastChild != addThis
      requires firstChild == null <==> lastChild == null
      requires lastChild != null ==> lastChild.next == null
      modifies this`firstChild, this`lastChild, this`children, {lastChild}`next
      modifies addThis`prev, addThis`next, addThis`parent
      ensures firstChild == if old(lastChild) == null then addThis else old(firstChild)
      ensures lastChild == addThis && children == old(children) + [addThis]
      ensures addThis.prev == old(lastChild) && addThis.next == null && addThis.parent == this
      ensures old(lastChild) != null ==> old(lastChild).next == addThis
    {
      if lastChild != null {
        assert firstChild != null;
        assert lastChild.next == null;
        lastChild.next := addThis;
        addThis.prev := lastChild;
        lastChild := addThis;
        addThis.next := null;
      } else {
        assert firstChild == null;
        firstChild, lastChild := addThis, addThis;
        addThis.prev := null;
        addThis.next := null;
      }
      addThis.parent := this;
      children := children + [addThis];
    }

    method LinkEnd(addThis: XMLNode, ghost nodes: set<XMLNode>, ghost rank: map<XMLNode, nat>)
      requires WellFormed(Snapshot(nodes), rank) && this in nodes && addThis in nodes && addThis.parent == null
      requires !Below(Snapshot(nodes), rank, this, addThis)
      modifies nodes`parent, nodes`firstChild, nodes`lastChild, nodes`prev, nodes`next, nodes`children
      ensures Appended(old(Snapshot(nodes)), Snapshot(nodes), this, addThis)
      ensures WellFormed(Snapshot(nodes), MovedRank(old(Snapshot(nodes)), rank, addThis, this))
    {
      hide WellFormed, Below, MovedRank;
      ghost var w := Snapshot(nodes);
      assert w[addThis] == addThis.Val() && w[this] == Val();
      Ends(w, rank, this);
      Apart(w, rank, this, addThis);
      if lastChild != null {
        assert w[lastChild] == lastChild.Val();
      }
      AttachEnd(addThis);
      forall n | n in nodes
        ensures AppendedNode(w, n.Val(), this, addThis, n)
      {
        assert w[n] == old(n.Val());
      }
      AppendKeeps(w, Snapshot(nodes), rank, this, addThis);
    }

    /** The assignments of `InsertFirstChild` after its preamble; the assertions are the source's. */
    method AttachFirst(addThis: XMLNode)
      requires addThis != this && firstChild != addThis
      requires firstChild == null <==> lastChild == null
      requires firstChild != null ==> firstChild.prev == null
      modifies this`firstChild, this`lastChild, this`children, {firstChild}`prev
      modifies addThis`prev, addThis`next, addThis`parent
      ensures lastChild == if old(firstChild) == null then addThis else old(lastChild)
      ensures firstChild == addThis && children == [addThis] + old(children)
      ensures addThis.prev == null && addThis.next == old(firstChild) && addThis.parent == this
      ensures old(firstChild) != null ==> old(firstChild).prev == addThis
    {
      if firstChild != null {
        assert lastChild != null;
        assert firstChild.prev == null;
        firstChild.prev := addThis;
        addThis.next := firstChild;
        firstChild := addThis;
        addThis.prev := null;
      } else {
        assert lastChild == null;
        firstChild, lastChild := addThis, addThis;
        addThis.prev := null;
        addThis.next := null;
      }
      addThis.parent := this;
      children := [addThis] + children;
    }

    method LinkFirst(addThis: XMLNode, ghost nodes: set<XMLNode>, ghost rank: map<XMLNode, nat>)
      requires WellFormed(Snapshot(nodes), rank) && this in nodes && addThis in nodes && addThis.parent == null
      requires !Below(Snapshot(nodes), rank, this, addThis)
      modifies nodes`parent, nodes`firstChild, nodes`lastChild, nodes`prev, nodes`next, nodes`children
      ensures Prepended(old(Snapshot(nodes)), Snapshot(nodes), this, addThis)
      ensures WellFormed(Snapshot(nodes), MovedRank(old(Snapshot(nodes)), rank, addThis, this))
    {
      hide WellFormed, Below, MovedRank;
      ghost var w := Snapshot(nodes);
      assert w[addThis] == addThis.Val() && w[this] == Val();
      Ends(w, rank, this);
      Apart(w, rank, this, addThis);
      if firstChild != null {
        assert w[firstChild] == firstChild.Val();
      }
      AttachFirst(addThis);
      forall n | n in nodes
        ensures PrependedNode(w, n.Val(), this, addThis, n)
      {
        assert w[n] == old(n.Val());
      }
      PrependKeeps(w, Snapshot(nodes), rank, this, addThis);
    }

    /** The assignments of `InsertAfterChild` after its preamble. */
    method AttachAfter(afterThis: XMLNode, addThis: XMLNode)
      requires addThis != this && addThis != afterThis && afterThis.next != null && afterThis.next != addThis
      modifies this`children, afterThis`next, {afterThis.next}`prev
      modifies addThis`prev, addThis`next, addThis`parent
      ensures children == WithAfter(old(children), afterThis, addThis)
      ensures addThis.prev == afterThis && addThis.next == old(afterThis.next) && addThis.parent == this
      ensures afterThis.next == addThis && old(afterThis.next).prev == addThis
    {
      addThis.prev := afterThis;
      addThis.next := afterThis.next;
      afterThis.next.prev := addThis;
      afterThis.next := addThis;
      addThis.parent := this;
      children := WithAfter(children, afterThis, addThis);
    }

    method LinkAfter(afterThis: XMLNode, addThis: XMLNode, ghost nodes: set<XMLNode>, ghost rank: map<XMLNode, nat>)
      requires WellFormed(Snapshot(nodes), rank) && this in nodes && addThis in nodes && addThis.parent == null
      requires afterThis in nodes && afterThis.parent == this && afterThis.next != null
      requires !Below(Snapshot(nodes), rank, this, addThis)
      modifies nodes`parent, nodes`firstChild, nodes`lastChild, nodes`prev, nodes`next, nodes`children
      ensures PutAfter(old(Snapshot(nodes)), Snapshot(nodes), this, afterThis, addThis)
      ensures WellFormed(Snapshot(nodes), MovedRank(old(Snapshot(nodes)), rank, addThis, this))
    {
      hide WellFormed, Below, MovedRank, WithAfter;
      ghost var w := Snapshot(nodes);
      assert w[addThis] == addThis.Val() && w[this] == Val() && w[afterThis] == afterThis.Val();
      Ends(w, rank, this);
      Apart(w, rank, this, addThis);
      Siblings(w, rank, this, afterThis);
      NextHasParent(w, rank, this, afterThis);
      assert w[afterThis.next] == afterThis.next.Val();
      AttachAfter(afterThis, addThis);
      forall n | n in nodes
        ensures PutAfterNode(w, n.Val(), this, afterThis, addThis, n)
      {
        assert w[n] == old(n.Val());
      }
      PutAfterKeeps(w, Snapshot(nodes), rank, this, afterThis, addThis);
    }

  }
}
