/**
  Which elements are loaded, and to what, by their names, IDs and children.
*/
module TreeXmlLoads {
  import opened Wrappers
  import opened TreeXml

  /** The factory's name for the element: the ID of a keyword, the name of anything else. */
  predicate Named(e: Elem, id: string) {
    if e.name in {"Action", "Condition", "Control", "Decorator", "SubTree"} then e.id == Some(id)
    else e.name == id && e.id == None
  }

  /** The element refers to the tree of that ID: it is a `SubTree`, or another keyword with the ID `SubTree`. */
  predicate Refers(e: Elem, id: string) {
    e.id == Some(id) &&
    (e.name == "SubTree" || (id == "SubTree" && e.name in {"Action", "Condition", "Control", "Decorator"}))
  }

  lemma NamedIs(reg: Registry, e: Elem, id: string)
    requires id in reg
    ensures Named(e, id) <==> TypeId(reg, e) == Some(id)
  {
  }

  /** The factory knows the name, and a decorator has one child at most. */
  ghost predicate Buildable(reg: Registry, e: Elem) {
    exists name :: name in reg && Named(e, name) && (reg[name] == DecoratorKind ==> |e.kids| <= 1)
  }

  /** Everything from the element down has a name the factory knows, each tree referred to exists, and no
      decorator has two children. */
  ghost predicate Loadable(reg: Registry, roots: Roots, rank: map<string, nat>, e: Elem, r: nat)
    requires Acyclic(roots, rank) && RefersBelow(roots, rank, e, r)
    decreases r, e
  {
    if Reference(e).Some? then
      && Reference(e).value in roots
      && Loadable(reg, roots, rank, roots[Reference(e).value], rank[Reference(e).value])
    else
      Buildable(reg, e) && forall i :: 0 <= i < |e.kids| ==> Loadable(reg, roots, rank, e.kids[i], r)
  }

  /** Loading throws exactly when something is not loadable. */
  lemma {:induction false} LoadsExactly(reg: Registry, roots: Roots, rank: map<string, nat>, e: Elem, r: nat)
    requires Builtin(reg) && Acyclic(roots, rank) && RefersBelow(roots, rank, e, r)
    ensures Load(reg, roots, rank, e, r).Some? <==> Loadable(reg, roots, rank, e, r)
    decreases r, e, |e.kids| + 1
  {
    if Reference(e).Some? {
      var id := Reference(e).value;
      if id in roots {
        LoadsExactly(reg, roots, rank, roots[id], rank[id]);
      }
    } else {
      AllLoadExactly(reg, roots, rank, e, 0, r);
      if TypeId(reg, e).Some? && TypeId(reg, e).value in reg {
        NamedIs(reg, e, TypeId(reg, e).value);
      }
    }
  }

  lemma KidsRefer(roots: Roots, rank: map<string, nat>, e: Elem, r: nat)
    requires RefersBelow(roots, rank, e, r) && Reference(e) == None
    ensures forall k :: 0 <= k < |e.kids| ==> RefersBelow(roots, rank, e.kids[k], r)
  {
  }

  /** The children from `i` on have been loaded to `kids`. */
  ghost predicate LoadedFrom(reg: Registry, roots: Roots, rank: map<string, nat>, e: Elem, i: nat, r: nat,
                             kids: seq<Node>)
    requires Acyclic(roots, rank) && forall k :: 0 <= k < |e.kids| ==> RefersBelow(roots, rank, e.kids[k], r)
  {
    i + |kids| == |e.kids| &&
    forall k :: i <= k < |e.kids| ==> Load(reg, roots, rank, e.kids[k], r) == Some(kids[k - i])
  }

  lemma OneMoreLoaded(reg: Registry, roots: Roots, rank: map<string, nat>, e: Elem, i: nat, r: nat, n: Node,
                      kids: seq<Node>)
    requires Acyclic(roots, rank) && forall k :: 0 <= k < |e.kids| ==> RefersBelow(roots, rank, e.kids[k], r)
    requires i < |e.kids| && Load(reg, roots, rank, e.kids[i], r) == Some(n)
    requires LoadedFrom(reg, roots, rank, e, i + 1, r, kids)
    ensures LoadedFrom(reg, roots, rank, e, i, r, [n] + kids)
  {
    hide Load, RefersBelow, Acyclic;
  }

  lemma {:induction false} AllLoadExactly(reg: Registry, roots: Roots, rank: map<string, nat>, e: Elem, i: nat, r: nat)
    requires Builtin(reg) && Acyclic(roots, rank) && i <= |e.kids| && Reference(e) == None
    requires RefersBelow(roots, rank, e, r)
    ensures forall k :: 0 <= k < |e.kids| ==> RefersBelow(roots, rank, e.kids[k], r)
    ensures var kids := LoadAll(reg, roots, rank, e, i, r);
            && (kids.Some? <==> forall k :: i <= k < |e.kids| ==> Loadable(reg, roots, rank, e.kids[k], r))
            && (kids.Some? ==> LoadedFrom(reg, roots, rank, e, i, r, kids.value))
    decreases r, e, |e.kids| - i
  {
    hide Load, Loadable, RefersBelow, Acyclic, Builtin;
    KidsRefer(roots, rank, e, r);
    if i < |e.kids| {
      hide LoadedFrom;
      LoadsExactly(reg, roots, rank, e.kids[i], r);
      AllLoadExactly(reg, roots, rank, e, i + 1, r);
      var kids := LoadAll(reg, roots, rank, e, i, r);
      if kids.Some? {
        var n, rest := Load(reg, roots, rank, e.kids[i], r).value, LoadAll(reg, roots, rank, e, i + 1, r).value;
        OneMoreLoaded(reg, roots, rank, e, i, r, n, rest);
      }
    }
  }

  /** What a loaded element becomes: a reference a subtree node over the tree of its ID, with that ID if it is
      a `SubTree`; anything else a node of its name with the nodes of its children in order, or without any
      if it is a leaf. */
  lemma LoadMeans(reg: Registry, roots: Roots, rank: map<string, nat>, e: Elem, r: nat, n: Node)
    requires Builtin(reg) && Acyclic(roots, rank) && RefersBelow(roots, rank, e, r)
    requires Load(reg, roots, rank, e, r) == Some(n)
    ensures n.Plain? ==> forall k :: 0 <= k < |e.kids| ==> RefersBelow(roots, rank, e.kids[k], r)
    ensures n.Sub? ==>
              && Refers(e, n.treeId) && n.treeId in roots
              && Load(reg, roots, rank, roots[n.treeId], rank[n.treeId]) == Some(n.body)
              && n.subtreeId == (if e.name == "SubTree" then n.treeId else "")
    ensures n.Plain? ==>
              && n.id in reg && Named(e, n.id) && !Refers(e, n.id)
              && (reg[n.id] == LeafKind ==> n.kids == [])
              && (reg[n.id] != LeafKind ==> LoadedFrom(reg, roots, rank, e, 0, r, n.kids))
              && (reg[n.id] == DecoratorKind ==> |n.kids| <= 1)
  {
    if Reference(e) == None {
      AllLoadExactly(reg, roots, rank, e, 0, r);
    }
  }

  // ----- verification -----

  /** How many children an element may have. */
  predicate FitsCount(reg: Registry, e: Elem) {
    && (e.name in {"Action", "Condition", "SubTree"} ==> |e.kids| == 0)
    && (e.name in {"Decorator", "BehaviorTree"} ==> |e.kids| == 1)
    && (e.name in {"Control", "Sequence", "SequenceStar", "Fallback"} ==> |e.kids| >= 1)
    && (e.name !in {"Action", "Condition", "SubTree", "Decorator", "BehaviorTree", "Control", "Sequence",
                    "SequenceStar", "Fallback"} ==>
          e.name in reg && (reg[e.name] == DecoratorKind ==> |e.kids| == 1))
  }

  /** An element is in order if its children are as many as its name allows, its name is known, and a keyword
      has an ID. */
  lemma VerifiedByCount(reg: Registry, e: Elem)
    ensures VerifiedHere(reg, e) <==>
              && FitsCount(reg, e)
              && (e.name in {"Action", "Condition", "Control", "Decorator", "SubTree"} ==> e.id.Some?)
  {
  }
}
