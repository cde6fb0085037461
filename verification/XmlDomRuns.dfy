/**
  Whole runs: a client makes a document and works on it, and what the document keeps holds throughout.
*/
module XmlDomRuns {
  import opened Wrappers
  import opened SiblingLists
  import opened NodeWorlds
  import opened MemPools
  import opened XmlDom
  import opened XmlAttributes
  import opened XmlBooks
  import opened XmlDomDocument

  datatype Kind = ElementKind | TextKind | CommentKind

  datatype Place = AtEnd | AtFront | Behind(a: nat)

  /** What a client does; its nodes are numbers in its list of nodes.  It does nothing where the number
      is none of the list, where a node would go inside itself or the document's own node would move,
      and where `InsertAfterChild` would run into a null pointer. */
  datatype Op =
    | New(kind: Kind)
    | Insert(at: Place, p: nat, c: nat)
    | SetAttribute(n: nat, name: string)
    | RemoveAttribute(n: nat, name: string)
    | Delete(n: nat)
    | ClearAll

  /** The document is in order, and the client's list holds exactly its nodes. */
  ghost predicate Known(d: XMLDocument, made: seq<XMLNode>)
    reads d`root, d`unlinked, d`nodes, d`rank, d`owner, d.nodes`document, d.nodes`attributes
    reads d.elementPool, d.attributePool, d.textPool, d.commentPool
    reads d.nodes`parent, d.nodes`firstChild, d.nodes`lastChild, d.nodes`prev, d.nodes`next, d.nodes`children
  {
    && d.Valid({}) && d.Attributed()
    && (forall n :: n in made ==> n in d.nodes) && (forall n :: n in d.nodes ==> n in made)
  }

  lemma BelowStep(w: World<XMLNode>, rank: map<XMLNode, nat>, n: XMLNode, a: XMLNode)
    requires WellFormed(w, rank) && n in w && n != a
    ensures n in rank && (w[n].parent == None ==> !Below(w, rank, n, a))
    ensures w[n].parent.Some? ==>
              var p := w[n].parent.value;
              p in w && p in rank && rank[p] < rank[n] && (Below(w, rank, n, a) <==> Below(w, rank, p, a))
  {
  }

  lemma RankOf(w: World<XMLNode>, rank: map<XMLNode, nat>, n: XMLNode)
    requires WellFormed(w, rank) && n in w
    ensures n in rank
  {
  }

  /** Whether `n` is `a` or inside it, by the parents. */
  method IsInside(d: XMLDocument, n: XMLNode, a: XMLNode) returns (inside: bool)
    requires d.Valid({}) && n in d.nodes
    ensures inside <==> Below(Snapshot(d.nodes), d.rank, n, a)
  {
    hide XMLDocument.Valid, Snapshot, WellFormed, Below, XMLNode.Val;
    ghost var w, rank := Snapshot(d.nodes), d.rank;
    d.ValidIsWellFormed({});
    RankOf(w, rank, n);
    var x: XMLNode? := n;
    while x != null && x != a
      invariant x != null ==> x in d.nodes && x in rank && (Below(w, rank, n, a) <==> Below(w, rank, x, a))
      invariant x == null ==> !Below(w, rank, n, a)
      decreases if x == null then 0 else rank[x] + 1
    {
      BelowStep(w, rank, x, a);
      FieldsOf(d.nodes, x);
      x := x.parent;
    }
    if x != null {
      FieldsOf(d.nodes, x);
      BelowSelf(w, rank, x);
    }
    return x != null;
  }

  lemma BelowSelf(w: World<XMLNode>, rank: map<XMLNode, nat>, n: XMLNode)
    requires n in w
    ensures Below(w, rank, n, n)
  {
  }

  lemma HoldsIfOutside(d: XMLDocument, p: XMLNode, c: XMLNode)
    requires d.Valid({}) && p in d.nodes && c in d.nodes && c != d.root && !Below(Snapshot(d.nodes), d.rank, p, c)
    ensures d.Insertable(p, c) && c.document == d
    ensures c.memPool in {d.elementPool, d.textPool, d.commentPool} && c.memPool != d.attributePool
  {
    hide Below, Ok, MemPool.Valid;
    d.ValidIsWellFormed({});
    d.NodePool({}, c);
  }

  /** A node is moved, or nothing happens. */
  method Move(d: XMLDocument, made: seq<XMLNode>, at: Place, p: XMLNode, c: XMLNode)
    requires Known(d, made) && p in made && c in made
    modifies d`unlinked, d`rank, {d.elementPool, d.textPool, d.commentPool}`untracked
    modifies d.nodes`parent, d.nodes`firstChild, d.nodes`lastChild, d.nodes`prev, d.nodes`next, d.nodes`children
    ensures Known(d, made)
  {
    hide XMLDocument.Valid, XMLDocument.Attributed, XMLDocument.Insertable, Snapshot, Below, XMLNode.Val;
    hide WellFormed, CanHold, Moved, Without, WithAfter;
    var inside := IsInside(d, p, c);
    if c == d.root || inside {
      return;
    }
    HoldsIfOutside(d, p, c);
    match at
    case AtEnd =>
      var r := d.InsertEndChild(p, c);
    case AtFront =>
      var r := d.InsertFirstChild(p, c);
    case Behind(a) =>
      if a < |made| && (made[a] == c || made[a].next != c || c.next != null) {
        var o := d.InsertAfterChild(p, made[a], c);
      }
  }

  /** The nodes of the list that are not inside `c`. */
  method Outside(d: XMLDocument, made: seq<XMLNode>, c: XMLNode) returns (rest: seq<XMLNode>)
    requires Known(d, made)
    ensures forall n :: n in rest <==> n in made && n !in Subtree(Snapshot(d.nodes), d.rank, c)
  {
    hide XMLDocument.Valid, XMLDocument.Attributed, Snapshot, Below, XMLNode.Val;
    rest := [];
    for i := 0 to |made|
      invariant forall n :: n in rest <==> n in made[..i] && n !in Subtree(Snapshot(d.nodes), d.rank, c)
    {
      var inside := IsInside(d, made[i], c);
      if !inside {
        rest := rest + [made[i]];
      }
    }
    assert made[..|made|] == made;
  }

  method Make(d: XMLDocument, made: seq<XMLNode>, kind: Kind) returns (now: seq<XMLNode>)
    requires Known(d, made)
    modifies d`unlinked, d`nodes, d`rank, d.elementPool, d.textPool, d.commentPool
    ensures Known(d, now) && forall n :: n in d.nodes ==> n in old(d.nodes) || fresh(n)
  {
    hide XMLDocument.Valid, XMLDocument.Attributed, Snapshot, XMLNode.Val;
    var pool := match kind
      case ElementKind => d.elementPool
      case TextKind => d.textPool
      case CommentKind => d.commentPool;
    var node := d.CreateUnlinkedNode(pool);
    now := made + [node];
  }

  method Edit(d: XMLDocument, made: seq<XMLNode>, n: XMLNode, name: string, keep: bool)
    requires Known(d, made) && n in made
    modifies d.attributePool, d`owner, n`attributes
    ensures Known(d, made)
  {
    hide XMLDocument.Valid, XMLDocument.Attributed;
    d.PoolsOf({});
    if n.memPool == d.elementPool {
      if keep {
        var i := d.FindOrCreateAttribute(n, name);
      } else {
        d.DeleteAttribute(n, name);
      }
    }
  }

  method Remove(d: XMLDocument, made: seq<XMLNode>, n: XMLNode) returns (now: seq<XMLNode>)
    requires Known(d, made) && n in made
    modifies d`unlinked, d`nodes, d`owner, d.elementPool, d.attributePool, d.textPool, d.commentPool, d.nodes`attributes
    modifies d.nodes`parent, d.nodes`firstChild, d.nodes`lastChild, d.nodes`prev, d.nodes`next, d.nodes`children
    ensures Known(d, now) && d.nodes <= old(d.nodes)
  {
    hide XMLDocument.Valid, XMLDocument.Attributed, Snapshot, XMLNode.Val, Below, Gone;
    if n == d.root {
      return made;
    }
    now := Outside(d, made, n);
    d.DeleteNode(n);
  }

  method Wipe(d: XMLDocument, made: seq<XMLNode>) returns (now: seq<XMLNode>)
    requires Known(d, made)
    modifies d`unlinked, d`nodes, d`owner, d.elementPool, d.attributePool, d.textPool, d.commentPool, d.nodes`attributes
    modifies d.nodes`parent, d.nodes`firstChild, d.nodes`lastChild, d.nodes`prev, d.nodes`next, d.nodes`children
    ensures Known(d, now) && d.nodes <= old(d.nodes)
  {
    hide XMLDocument.Valid, XMLDocument.Attributed;
    RootKnown(d);
    d.Clear();
    now := [d.root];
  }

  lemma RootKnown(d: XMLDocument)
    requires d.Valid({})
    ensures d.root in d.nodes
  {
  }

  method Step(d: XMLDocument, made: seq<XMLNode>, op: Op) returns (now: seq<XMLNode>)
    requires Known(d, made)
    modifies d`unlinked, d`nodes, d`rank, d`owner, d.elementPool, d.attributePool, d.textPool, d.commentPool
    modifies d.nodes`parent, d.nodes`firstChild, d.nodes`lastChild, d.nodes`prev, d.nodes`next, d.nodes`children
    modifies d.nodes`attributes
    ensures Known(d, now) && forall n :: n in d.nodes ==> n in old(d.nodes) || fresh(n)
  {
    hide XMLDocument.Valid, XMLDocument.Attributed;
    now := made;
    match op
    case New(kind) =>
      now := Make(d, made, kind);
    case Insert(at, p, c) =>
      if p < |made| && c < |made| {
        Move(d, made, at, made[p], made[c]);
      }
    case SetAttribute(n, name) =>
      if n < |made| {
        Edit(d, made, made[n], name, true);
      }
    case RemoveAttribute(n, name) =>
      if n < |made| {
        Edit(d, made, made[n], name, false);
      }
    case Delete(n) =>
      if n < |made| {
        now := Remove(d, made, made[n]);
      }
    case ClearAll =>
      now := Wipe(d, made);
  }

  /** Whatever a client does to a new document: the siblings' lists and the forest are in order, the
      client knows exactly the nodes that are alive, and every pool counts what is alive. */
  method Run(perElement: nat, perAttribute: nat, perText: nat, perComment: nat, ops: seq<Op>)
    returns (d: XMLDocument, made: seq<XMLNode>)
    requires perElement > 0 && perAttribute > 0 && perText > 0 && perComment > 0
    ensures fresh(d) && Known(d, made) && WellFormed(Snapshot(d.nodes), d.rank)
    ensures forall pool :: pool in {d.elementPool, d.textPool, d.commentPool} ==>
              && pool.currentAllocs == |NodesOf(d.nodes, pool)|
              && pool.untracked == |set n | n in d.nodes && n.memPool == pool && n.parent == null|
    ensures d.attributePool.currentAllocs == |Places(Lists(d.nodes))| && d.attributePool.untracked == 0
  {
    hide XMLDocument.Valid, XMLDocument.Attributed, WellFormed, Snapshot, NodesOf, Lists, Places;
    d := new XMLDocument(perElement, perAttribute, perText, perComment);
    made := [d.root];
    for i := 0 to |ops|
      invariant fresh(d) && fresh(d.elementPool) && fresh(d.attributePool) && fresh(d.textPool) && fresh(d.commentPool)
      invariant Known(d, made) && forall n :: n in d.nodes ==> fresh(n)
    {
      made := Step(d, made, ops[i]);
    }
    d.ValidIsWellFormed({});
    d.AttributeConservation();
    d.Conservation(d.elementPool);
    d.Conservation(d.textPool);
    d.Conservation(d.commentPool);
  }

  // ----- an input that runs into the null pointer -----

  lemma RootInsideNothing(w: World<XMLNode>, rank: map<XMLNode, nat>, root: XMLNode, c: XMLNode)
    requires root in w && w[root].parent == None && root != c
    ensures !Below(w, rank, root, c)
  {
  }

  lemma SomeElement<T>(s: seq<T>)
    ensures s != [] ==> exists x :: x in s
  {
    if s != [] {
      assert s[0] in s;
    }
  }

  lemma ChildrenKnow(w: World<XMLNode>, rank: map<XMLNode, nat>, p: XMLNode)
    requires WellFormed(w, rank) && p in w
    ensures forall k :: k in w[p].kids ==> k in w && w[k].parent == Some(p)
  {
    assert ListOk(w, p);
  }

  lemma TwoChildren(w: World<XMLNode>, rank: map<XMLNode, nat>, p: XMLNode, a: XMLNode, b: XMLNode)
    requires WellFormed(w, rank) && p in w && w[p].kids == [a, b]
    ensures a in w && b in w && w[a].parent == Some(p) && w[a].next == Some(b) && w[b].next == None
  {
    assert ListOk(w, p) && a in w[p].kids && b in w[p].kids;
    assert PlaceOk(w, rank, a) && PlaceOk(w, rank, b);
    LastHasNoAfter(w[p].kids, b);
  }

  lemma KidsAreOld(before: World<XMLNode>, w: World<XMLNode>, rank: map<XMLNode, nat>, root: XMLNode, n: XMLNode)
    requires WellFormed(w, rank) && root in before && n !in before
    requires w == before[n := Links(None, None, None, None, None, [])]
    ensures Without(w[root].kids, n) == before[root].kids
  {
    ChildrenKnow(w, rank, root);
    assert w[n].parent == None;
    WithoutStranger(w[root].kids, n);
  }

  /** A new node becomes the last child of the document's own node. */
  method AddLast(d: XMLDocument) returns (n: XMLNode)
    requires d.Valid({}) && d.Attributed()
    modifies d`unlinked, d`nodes, d`rank, d.elementPool, {d.textPool, d.commentPool}`untracked
    modifies d.nodes`parent, d.nodes`firstChild, d.nodes`lastChild, d.nodes`prev, d.nodes`next, d.nodes`children
    ensures d.Valid({}) && d.Attributed() && fresh(n) && d.nodes == old(d.nodes) + {n} && d.root in old(d.nodes)
    ensures Snapshot(d.nodes)[d.root].kids == old(Snapshot(d.nodes))[d.root].kids + [n]
  {
    hide XMLDocument.Valid, XMLDocument.Attributed, XMLDocument.Insertable, Below, XMLNode.Val, WellFormed;
    hide CanHold, Snapshot;
    RootKnown(d);
    d.RootFacts({});
    ghost var before := Snapshot(d.nodes);
    n := d.CreateUnlinkedNode(d.elementPool);
    ghost var w := Snapshot(d.nodes);
    RootInsideNothing(w, d.rank, d.root, n);
    HoldsIfOutside(d, d.root, n);
    FieldsOf(d.nodes, d.root);
    d.ValidIsWellFormed({});
    KidsAreOld(before, w, d.rank, d.root, n);
    var r := d.InsertEndChild(d.root, n);
  }

  lemma SnapshotKeys(nodes: set<XMLNode>)
    ensures Snapshot(nodes).Keys == nodes
  {
  }

  lemma AloneHasNoChildren(w: World<XMLNode>, rank: map<XMLNode, nat>, root: XMLNode)
    requires WellFormed(w, rank) && w.Keys == {root} && w[root].parent == None
    ensures w[root].kids == []
  {
    hide WellFormed;
    ChildrenKnow(w, rank, root);
    SomeElement(w[root].kids);
  }

  /** A new document, of which the client knows that its own node has no children. */
  method Childless() returns (d: XMLDocument)
    ensures d.Valid({}) && d.Attributed() && d.nodes == {d.root} && Snapshot(d.nodes)[d.root].kids == []
    ensures fresh(d) && fresh(d.root) && fresh(d.elementPool) && fresh(d.textPool) && fresh(d.commentPool)
  {
    hide XMLDocument.Valid, XMLDocument.Attributed, XMLNode.Val, WellFormed, Snapshot;
    d := new XMLDocument(1, 1, 1, 1);
    d.ValidIsWellFormed({});
    d.RootFacts({});
    SnapshotKeys(d.nodes);
    AloneHasNoChildren(Snapshot(d.nodes), d.rank, d.root);
  }

  method TwoUnderRoot() returns (d: XMLDocument, a: XMLNode, b: XMLNode)
    ensures d.Valid({}) && d.Attributed() && d.nodes == {d.root, a, b} && b != d.root
    ensures Snapshot(d.nodes)[d.root].kids == [a, b] && Snapshot(d.nodes)[d.root].parent == None
    ensures fresh(d) && fresh(d.root) && fresh(a) && fresh(b)
    ensures fresh(d.elementPool) && fresh(d.textPool) && fresh(d.commentPool)
  {
    hide XMLDocument.Valid, XMLDocument.Attributed, XMLNode.Val, WellFormed, Snapshot;
    d := Childless();
    a := AddLast(d);
    b := AddLast(d);
    d.RootFacts({});
  }

  /** Inserting the last child behind the child directly before it follows a null pointer. */
  method InsertLastBehindItsPredecessor() returns (o: Outcome)
    ensures o == NullDereference
  {
    hide XMLDocument.Valid, XMLDocument.Attributed, XMLDocument.Insertable, Below, XMLNode.Val, WellFormed, CanHold;
    hide Snapshot, Moved, Without, WithAfter;
    var d, a, b := TwoUnderRoot();
    d.ValidIsWellFormed({});
    ghost var w := Snapshot(d.nodes);
    TwoChildren(w, d.rank, d.root, a, b);
    FieldsOf(d.nodes, a);
    FieldsOf(d.nodes, b);
    RootInsideNothing(w, d.rank, d.root, b);
    HoldsIfOutside(d, d.root, b);
    o := d.InsertAfterChild(d.root, a, b);
  }
}
