/**
  Which documents load to trees that can be written and read again: conditions on the elements, for
  documents that were verified.
*/
module TreeXmlDocuments {
  import opened Wrappers
  import opened TreeXml

  /** Every element reached that stands for a subtree is named `SubTree`; what is below a leaf is not
      kept. */
  ghost predicate SubtreesNamed(reg: Registry, roots: Roots, rank: map<string, nat>, e: Elem, r: nat)
    requires Acyclic(roots, rank) && RefersBelow(roots, rank, e, r)
    decreases r, e
  {
    if Reference(e).Some? then
      var id := Reference(e).value;
      e.name == "SubTree" && (id in roots ==> SubtreesNamed(reg, roots, rank, roots[id], rank[id]))
    else
      var id := TypeId(reg, e);
      IsKind(reg, id, LeafKind) ||
      forall i :: 0 <= i < |e.kids| ==> SubtreesNamed(reg, roots, rank, e.kids[i], r)
  }

  /** No element `Action` or `Condition` that is kept names a decorator; the trees referred to below a
      leaf are kept, the nodes there are not. */
  ghost predicate ChildrenGiven(reg: Registry, roots: Roots, rank: map<string, nat>, e: Elem, r: nat, kept: bool)
    requires Acyclic(roots, rank) && RefersBelow(roots, rank, e, r)
    decreases r, e
  {
    if Reference(e).Some? then
      var id := Reference(e).value;
      id in roots ==> ChildrenGiven(reg, roots, rank, roots[id], rank[id], true)
    else
      var id := TypeId(reg, e);
      && (kept && (e.name == "Action" || e.name == "Condition") ==> !IsKind(reg, id, DecoratorKind))
      && forall i :: 0 <= i < |e.kids| ==>
           ChildrenGiven(reg, roots, rank, e.kids[i], r, kept && !IsKind(reg, id, LeafKind))
  }

  lemma {:induction false} NamedExactly(reg: Registry, roots: Roots, rank: map<string, nat>, e: Elem, r: nat)
    requires Acyclic(roots, rank) && RefersBelow(roots, rank, e, r) && Load(reg, roots, rank, e, r).Some?
    ensures Matched(Load(reg, roots, rank, e, r).value) <==> SubtreesNamed(reg, roots, rank, e, r)
    decreases r, e, |e.kids| + 1
  {
    if Reference(e).Some? {
      var id := Reference(e).value;
      NamedExactly(reg, roots, rank, roots[id], rank[id]);
    } else {
      AllNamedExactly(reg, roots, rank, e, 0, r);
      var kids := LoadAll(reg, roots, rank, e, 0, r).value;
      assert (forall n :: n in kids ==> Matched(n)) <==> forall i :: 0 <= i < |kids| ==> Matched(kids[i]);
    }
  }

  lemma {:induction false} AllNamedExactly(reg: Registry, roots: Roots, rank: map<string, nat>, e: Elem, i: nat, r: nat)
    requires Acyclic(roots, rank) && i <= |e.kids| && Reference(e) == None && RefersBelow(roots, rank, e, r)
    requires LoadAll(reg, roots, rank, e, i, r).Some?
    ensures (forall n :: n in LoadAll(reg, roots, rank, e, i, r).value ==> Matched(n)) <==>
            forall k :: i <= k < |e.kids| ==> SubtreesNamed(reg, roots, rank, e.kids[k], r)
    decreases r, e, |e.kids| - i
  {
    if i < |e.kids| {
      NamedExactly(reg, roots, rank, e.kids[i], r);
      AllNamedExactly(reg, roots, rank, e, i + 1, r);
      assert LoadAll(reg, roots, rank, e, i, r).value[0] == Load(reg, roots, rank, e.kids[i], r).value;
    }
  }

  /** The main tree and the trees entered with it are attached. */
  ghost predicate AllAttached(reg: Registry, trees: seq<(string, Node)>) {
    forall t :: t in trees ==> Attached(reg, t.1)
  }

  ghost predicate DocumentVerified(reg: Registry, roots: Roots) {
    forall id :: id in roots ==> Verified(reg, roots[id])
  }

  lemma AllAttachedOne(reg: Registry, t: (string, Node), trees: seq<(string, Node)>)
    ensures AllAttached(reg, [t] + trees) <==> Attached(reg, t.1) && AllAttached(reg, trees)
  {
  }

  lemma AllAttachedBoth(reg: Registry, some: seq<(string, Node)>, others: seq<(string, Node)>)
    ensures AllAttached(reg, some + others) <==> AllAttached(reg, some) && AllAttached(reg, others)
  {
  }

  /** A verified element is loaded to a decorator without a child only as `Action` or `Condition`. */
  lemma AttachedHere(reg: Registry, e: Elem, id: string, kids: seq<Node>)
    requires VerifiedHere(reg, e) && TypeId(reg, e) == Some(id) && id in reg && Reference(e) == None
    requires |kids| == |e.kids| && Attach(reg[id], id, kids).Some?
    ensures Attached(reg, Attach(reg[id], id, kids).value) <==>
            && ((e.name == "Action" || e.name == "Condition") ==> reg[id] != DecoratorKind)
            && (reg[id] != LeafKind ==> forall n :: n in kids ==> Attached(reg, n))
  {
    assert (forall n :: n in kids ==> Attached(reg, n)) <==> forall i :: 0 <= i < |kids| ==> Attached(reg, kids[i]);
  }

  lemma {:induction false} GivenExactly(reg: Registry, roots: Roots, rank: map<string, nat>, e: Elem, r: nat,
                                        kept: bool)
    requires Acyclic(roots, rank) && RefersBelow(roots, rank, e, r) && Load(reg, roots, rank, e, r).Some?
    requires Builtin(reg) && DocumentVerified(reg, roots) && Verified(reg, e)
    ensures (kept ==> Attached(reg, Load(reg, roots, rank, e, r).value))
            && AllAttached(reg, Entered(reg, roots, rank, e, r))
            <==> ChildrenGiven(reg, roots, rank, e, r, kept)
    decreases r, e, |e.kids| + 1
  {
    if Reference(e).Some? {
      var id := Reference(e).value;
      GivenExactly(reg, roots, rank, roots[id], rank[id], true);
      var body := Load(reg, roots, rank, roots[id], rank[id]).value;
      var entered := Entered(reg, roots, rank, roots[id], rank[id]);
      assert AllAttached(reg, [(id, body)] + entered) <==> Attached(reg, body) && AllAttached(reg, entered) by {
        AllAttachedOne(reg, (id, body), entered);
      }
    } else {
      var id := TypeId(reg, e).value;
      var below := kept && reg[id] != LeafKind;
      AllGivenExactly(reg, roots, rank, e, 0, r, below);
      AttachedHere(reg, e, id, LoadAll(reg, roots, rank, e, 0, r).value);
    }
  }

  lemma {:induction false} AllGivenExactly(reg: Registry, roots: Roots, rank: map<string, nat>, e: Elem, i: nat, r: nat,
                                           kept: bool)
    requires Acyclic(roots, rank) && i <= |e.kids| && Reference(e) == None && RefersBelow(roots, rank, e, r)
    requires Builtin(reg) && DocumentVerified(reg, roots) && forall k :: 0 <= k < |e.kids| ==> Verified(reg, e.kids[k])
    requires LoadAll(reg, roots, rank, e, i, r).Some?
    ensures |LoadAll(reg, roots, rank, e, i, r).value| == |e.kids| - i
    ensures (kept ==> forall n :: n in LoadAll(reg, roots, rank, e, i, r).value ==> Attached(reg, n))
            && AllAttached(reg, EnteredAll(reg, roots, rank, e, i, r))
            <==> forall k :: i <= k < |e.kids| ==> ChildrenGiven(reg, roots, rank, e.kids[k], r, kept)
    decreases r, e, |e.kids| - i
  {
    if i < |e.kids| {
      GivenExactly(reg, roots, rank, e.kids[i], r, kept);
      AllGivenExactly(reg, roots, rank, e, i + 1, r, kept);
      AllAttachedBoth(reg, Entered(reg, roots, rank, e.kids[i], r), EnteredAll(reg, roots, rank, e, i + 1, r));
      assert LoadAll(reg, roots, rank, e, i, r).value[0] == Load(reg, roots, rank, e.kids[i], r).value;
    }
  }

  // ----- readable names -----

  /** Every element that is kept names a node that is readable with the children it keeps; the trees
      referred to below a leaf are kept, the nodes there are not. */
  ghost predicate NamesReadable(reg: Registry, roots: Roots, rank: map<string, nat>, e: Elem, r: nat, kept: bool)
    requires Acyclic(roots, rank) && RefersBelow(roots, rank, e, r)
    decreases r, e
  {
    if Reference(e).Some? then
      var id := Reference(e).value;
      id in roots ==> NamesReadable(reg, roots, rank, roots[id], rank[id], true)
    else
      var id := TypeId(reg, e);
      && (kept && id.Some? ==> Readable(id.value, if IsKind(reg, id, LeafKind) then 0 else |e.kids|))
      && forall i :: 0 <= i < |e.kids| ==>
           NamesReadable(reg, roots, rank, e.kids[i], r, kept && !IsKind(reg, id, LeafKind))
  }

  ghost predicate AllReadable(trees: seq<(string, Node)>) {
    forall t :: t in trees ==> PartReadable(t.1)
  }

  lemma AllReadableOne(t: (string, Node), trees: seq<(string, Node)>)
    ensures AllReadable([t] + trees) <==> PartReadable(t.1) && AllReadable(trees)
  {
  }

  lemma AllReadableBoth(some: seq<(string, Node)>, others: seq<(string, Node)>)
    ensures AllReadable(some + others) <==> AllReadable(some) && AllReadable(others)
  {
  }

  lemma ReadableHere(reg: Registry, id: string, kids: seq<Node>)
    requires id in reg && Attach(reg[id], id, kids).Some?
    ensures PartReadable(Attach(reg[id], id, kids).value) <==>
            && Readable(id, if reg[id] == LeafKind then 0 else |kids|)
            && (reg[id] != LeafKind ==> forall n :: n in kids ==> PartReadable(n))
  {
    assert (forall n :: n in kids ==> PartReadable(n)) <==> forall i :: 0 <= i < |kids| ==> PartReadable(kids[i]);
  }

  lemma {:induction false} ReadableExactly(reg: Registry, roots: Roots, rank: map<string, nat>, e: Elem, r: nat,
                                           kept: bool)
    requires Acyclic(roots, rank) && RefersBelow(roots, rank, e, r) && Load(reg, roots, rank, e, r).Some?
    ensures (kept ==> PartReadable(Load(reg, roots, rank, e, r).value))
            && AllReadable(Entered(reg, roots, rank, e, r))
            <==> NamesReadable(reg, roots, rank, e, r, kept)
    decreases r, e, |e.kids| + 1
  {
    if Reference(e).Some? {
      var id := Reference(e).value;
      ReadableExactly(reg, roots, rank, roots[id], rank[id], true);
      var body := Load(reg, roots, rank, roots[id], rank[id]).value;
      AllReadableOne((id, body), Entered(reg, roots, rank, roots[id], rank[id]));
    } else {
      var id := TypeId(reg, e).value;
      AllReadableExactly(reg, roots, rank, e, 0, r, kept && reg[id] != LeafKind);
      ReadableHere(reg, id, LoadAll(reg, roots, rank, e, 0, r).value);
    }
  }

  lemma {:induction false} AllReadableExactly(reg: Registry, roots: Roots, rank: map<string, nat>, e: Elem, i: nat,
                                              r: nat, kept: bool)
    requires Acyclic(roots, rank) && i <= |e.kids| && Reference(e) == None && RefersBelow(roots, rank, e, r)
    requires LoadAll(reg, roots, rank, e, i, r).Some?
    ensures |LoadAll(reg, roots, rank, e, i, r).value| == |e.kids| - i
    ensures (kept ==> forall n :: n in LoadAll(reg, roots, rank, e, i, r).value ==> PartReadable(n))
            && AllReadable(EnteredAll(reg, roots, rank, e, i, r))
            <==> forall k :: i <= k < |e.kids| ==> NamesReadable(reg, roots, rank, e.kids[k], r, kept)
    decreases r, e, |e.kids| - i
  {
    if i < |e.kids| {
      ReadableExactly(reg, roots, rank, e.kids[i], r, kept);
      AllReadableExactly(reg, roots, rank, e, i + 1, r, kept);
      AllReadableBoth(Entered(reg, roots, rank, e.kids[i], r), EnteredAll(reg, roots, rank, e, i + 1, r));
      assert LoadAll(reg, roots, rank, e, i, r).value[0] == Load(reg, roots, rank, e.kids[i], r).value;
    }
  }

  // ----- documents -----

  /** What becomes of a verified document that is loaded, written and read again: writing follows a null
      pointer exactly when a kept `Action` or `Condition` names a decorator; the tree comes back exactly
      when every subtree is an element `SubTree` and the names of all kept elements are readable. */
  lemma VerifiedReloads(reg: Registry, roots: Roots, rank: map<string, nat>, main: string)
    requires Builtin(reg) && Acyclic(roots, rank) && main in roots && "" !in roots && DocumentVerified(reg, roots)
    requires Load(reg, roots, rank, roots[main], rank[main]).Some?
    ensures var trees := TreesOf(reg, roots, rank, main);
            var n := Load(reg, roots, rank, roots[main], rank[main]).value;
            && Acyclic(RootsOf(Exported(trees)), rank)
            && WriteAndRead(reg, rank, main, trees) ==
               if !ChildrenGiven(reg, roots, rank, roots[main], rank[main], true) then NullDereference
               else if SubtreesNamed(reg, roots, rank, roots[main], rank[main])
                       && NamesReadable(reg, roots, rank, roots[main], rank[main], true)
               then Read(Some(n))
               else Read(None)
  {
    hide From, RefersBelow, Load, Matched, Attached, PartReadable, Verified, Entered, WriteAndRead, SubtreesNamed;
    hide ChildrenGiven, NamesReadable;
    var n := Load(reg, roots, rank, roots[main], rank[main]).value;
    ReloadsExactly(reg, roots, rank, main);
    NamedExactly(reg, roots, rank, roots[main], rank[main]);
    GivenExactly(reg, roots, rank, roots[main], rank[main], true);
    AllAttachedOne(reg, (main, n), Entered(reg, roots, rank, roots[main], rank[main]));
    ReadableExactly(reg, roots, rank, roots[main], rank[main], true);
    AllReadableOne((main, n), Entered(reg, roots, rank, roots[main], rank[main]));
  }

  /** An element `Action` may stand for a subtree, which then does not come back. */
  lemma SubtreeAsAction()
    ensures var reg := map["SubTree" := SubTreeKind, "A" := LeafKind];
            var roots := map["main" := Elem("Action", Some("SubTree"), []), "SubTree" := Elem("A", None, [])];
            var rank := map["main" := 1, "SubTree" := 0];
            && Builtin(reg) && Acyclic(roots, rank) && DocumentVerified(reg, roots)
            && Load(reg, roots, rank, roots["main"], 1) == Some(Sub("", "SubTree", Plain("A", [])))
            && Acyclic(RootsOf(Exported(TreesOf(reg, roots, rank, "main"))), rank)
            && WriteAndRead(reg, rank, "main", TreesOf(reg, roots, rank, "main")) == Read(None)
  {
    var reg := map["SubTree" := SubTreeKind, "A" := LeafKind];
    var roots := map["main" := Elem("Action", Some("SubTree"), []), "SubTree" := Elem("A", None, [])];
    var rank := map["main" := 1, "SubTree" := 0];
    assert Acyclic(roots, rank);
    assert Load(reg, roots, rank, roots["SubTree"], 0) == Some(Plain("A", []));
    assert Load(reg, roots, rank, roots["main"], 1) == Some(Sub("", "SubTree", Plain("A", [])));
    VerifiedReloads(reg, roots, rank, "main");
  }

  /** An element `Action` may name a decorator, and writing the tree then follows a null pointer. */
  lemma DecoratorAsAction()
    ensures var reg := map["SubTree" := SubTreeKind, "Inverter" := DecoratorKind];
            var roots := map["main" := Elem("Action", Some("Inverter"), [])];
            var rank := map["main" := 0];
            && Builtin(reg) && Acyclic(roots, rank) && DocumentVerified(reg, roots)
            && Load(reg, roots, rank, roots["main"], 0) == Some(Plain("Inverter", []))
            && Acyclic(RootsOf(Exported(TreesOf(reg, roots, rank, "main"))), rank)
            && WriteAndRead(reg, rank, "main", TreesOf(reg, roots, rank, "main")) == NullDereference
  {
    var reg := map["SubTree" := SubTreeKind, "Inverter" := DecoratorKind];
    var roots := map["main" := Elem("Action", Some("Inverter"), [])];
    var rank := map["main" := 0];
    assert Acyclic(roots, rank);
    assert Load(reg, roots, rank, roots["main"], 0) == Some(Plain("Inverter", []));
    VerifiedReloads(reg, roots, rank, "main");
  }
}
