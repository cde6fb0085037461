/**
  The loader at work: nodes and trees are appended to the output tree as they are created, and every
  node takes the next number of a 16-bit counter.
*/
module TreeLoader {
  import opened Wrappers
  import Slices
  import opened TreeXml

  const UID_RANGE: nat := 0x1_0000

  type uint16 = n: nat | n < UID_RANGE

  // ----- numbers -----

  /** The numbers of `n` nodes created after the counter stood at `from`. */
  function Uids(from: nat, n: nat): (s: seq<nat>)
    ensures |s| == n
  {
    seq(n, k requires 0 <= k < n => (from + k + 1) % UID_RANGE)
  }

  lemma UidsAddUp(from: nat, a: nat, b: nat)
    ensures Uids(from, a + b) == Uids(from, a) + Uids((from + a) % UID_RANGE, b)
  {
  }

  lemma ModAdds(a: nat, b: nat)
    ensures (a % UID_RANGE + b) % UID_RANGE == (a + b) % UID_RANGE
  {
  }

  predicate NoTwoAlike(s: seq<nat>) {
    forall j, k :: 0 <= j < k < |s| ==> s[j] != s[k]
  }

  /** The numbers 1, 2 and so on. */
  predicate FromOneOn(s: seq<nat>) {
    forall k :: 0 <= k < |s| ==> s[k] == k + 1
  }

  /** While they fit, the numbers are 1 to `n` in order; they repeat once there are more nodes than
      numbers. */
  lemma UidsCount(n: nat)
    ensures n < UID_RANGE ==> FromOneOn(Uids(0, n))
    ensures NoTwoAlike(Uids(0, n)) <==> n <= UID_RANGE
  {
    if n > UID_RANGE {
      assert Uids(0, n)[0] == 1 && Uids(0, n)[UID_RANGE] == (UID_RANGE + 1) % UID_RANGE == 1;
    } else {
      forall k | 0 <= k < n
        ensures Uids(0, n)[k] == if k + 1 < UID_RANGE then k + 1 else 0
      {
      }
    }
  }

  // ----- the nodes in the order of their creation -----

  /** The names the factory is asked for, the element before its children, a reference before the
      tree it refers to. */
  ghost function Created(reg: Registry, roots: Roots, rank: map<string, nat>, e: Elem, r: nat): seq<string>
    requires Acyclic(roots, rank) && RefersBelow(roots, rank, e, r) && Load(reg, roots, rank, e, r).Some?
    decreases r, e, |e.kids| + 1
  {
    var id := TypeId(reg, e).value;
    if Reference(e).Some? then [id] + Created(reg, roots, rank, roots[id], rank[id])
    else [id] + CreatedFrom(reg, roots, rank, e, 0, r)
  }

  ghost function CreatedFrom(reg: Registry, roots: Roots, rank: map<string, nat>, e: Elem, i: nat, r: nat): seq<string>
    requires Acyclic(roots, rank) && i <= |e.kids| && Reference(e) == None && RefersBelow(roots, rank, e, r)
    requires LoadAll(reg, roots, rank, e, i, r).Some?
    decreases r, e, |e.kids| - i
  {
    if i == |e.kids| then []
    else Created(reg, roots, rank, e.kids[i], r) + CreatedFrom(reg, roots, rank, e, i + 1, r)
  }

  /** The nodes of a loaded tree, each before what is below it. */
  function Preorder(n: Node): seq<string> {
    match n
    case Plain(id, kids) => [id] + PreorderOfAll(kids)
    case Sub(_, treeId, body) => [treeId] + Preorder(body)
  }

  function PreorderOfAll(kids: seq<Node>): seq<string> {
    if kids == [] then [] else Preorder(kids[0]) + PreorderOfAll(kids[1..])
  }

  /** No element that is reached is a leaf with children, which are created and dropped. */
  ghost predicate LeavesBare(reg: Registry, roots: Roots, rank: map<string, nat>, e: Elem, r: nat)
    requires Acyclic(roots, rank) && RefersBelow(roots, rank, e, r)
    decreases r, e
  {
    if Reference(e).Some? then
      var id := Reference(e).value;
      id in roots ==> LeavesBare(reg, roots, rank, roots[id], rank[id])
    else
      var id := TypeId(reg, e);
      && (IsKind(reg, id, LeafKind) ==> e.kids == [])
      && forall i :: 0 <= i < |e.kids| ==> LeavesBare(reg, roots, rank, e.kids[i], r)
  }

  /** Nodes are created in the preorder of the loaded tree, and trees in the order in which they occur in
      it, exactly when no leaf has children; otherwise there are more. */
  lemma {:induction false} CreatedInPreorder(reg: Registry, roots: Roots, rank: map<string, nat>, e: Elem, r: nat)
    requires Acyclic(roots, rank) && RefersBelow(roots, rank, e, r) && Load(reg, roots, rank, e, r).Some?
    ensures var n, created := Load(reg, roots, rank, e, r).value, Created(reg, roots, rank, e, r);
            && |Preorder(n)| <= |created|
            && (LeavesBare(reg, roots, rank, e, r) <==> created == Preorder(n))
            && (LeavesBare(reg, roots, rank, e, r) <==> |created| == |Preorder(n)|)
            && (LeavesBare(reg, roots, rank, e, r) ==> Entered(reg, roots, rank, e, r) == Subtrees(n))
    decreases r, e, |e.kids| + 1
  {
    if Reference(e).Some? {
      var id := Reference(e).value;
      CreatedInPreorder(reg, roots, rank, roots[id], rank[id]);
    } else {
      AllCreatedInPreorder(reg, roots, rank, e, 0, r);
    }
  }

  lemma {:induction false} AllCreatedInPreorder(reg: Registry, roots: Roots, rank: map<string, nat>, e: Elem, i: nat,
                                                r: nat)
    requires Acyclic(roots, rank) && i <= |e.kids| && Reference(e) == None && RefersBelow(roots, rank, e, r)
    requires LoadAll(reg, roots, rank, e, i, r).Some?
    ensures var kids, created := LoadAll(reg, roots, rank, e, i, r).value, CreatedFrom(reg, roots, rank, e, i, r);
            var bare := forall k :: i <= k < |e.kids| ==> LeavesBare(reg, roots, rank, e.kids[k], r);
            && |kids| == |e.kids| - i && (i < |e.kids| ==> created != [])
            && |PreorderOfAll(kids)| <= |created|
            && (bare <==> |created| == |PreorderOfAll(kids)|)
            && (bare ==> created == PreorderOfAll(kids) && EnteredAll(reg, roots, rank, e, i, r) == SubtreesOfAll(kids))
    decreases r, e, |e.kids| - i
  {
    if i < |e.kids| {
      CreatedInPreorder(reg, roots, rank, e.kids[i], r);
      AllCreatedInPreorder(reg, roots, rank, e, i + 1, r);
      var kids := LoadAll(reg, roots, rank, e, i, r).value;
      assert kids[0] == Load(reg, roots, rank, e.kids[i], r).value;
      assert kids[1..] == LoadAll(reg, roots, rank, e, i + 1, r).value;
    }
  }

  function TreeIds(trees: seq<(string, Node)>): seq<string> {
    seq(|trees|, i requires 0 <= i < |trees| => trees[i].0)
  }

  // ----- the loader -----

  /** The state of the tree that is being built. */
  datatype Output = Output(uidCounter: uint16, names: seq<string>, uids: seq<nat>, treeIds: seq<string>)

  /** New nodes and trees are appended, and numbered on. */
  function Grown(o: Output, names: seq<string>, treeIds: seq<string>): Output {
    Output((o.uidCounter + |names|) % UID_RANGE, o.names + names, o.uids + Uids(o.uidCounter, |names|),
           o.treeIds + treeIds)
  }

  lemma GrownTwice(o: Output, names: seq<string>, treeIds: seq<string>, names': seq<string>, treeIds': seq<string>)
    ensures Grown(Grown(o, names, treeIds), names', treeIds') == Grown(o, names + names', treeIds + treeIds')
  {
    UidsAddUp(o.uidCounter, |names|, |names'|);
    ModAdds(o.uidCounter + |names|, |names'|);
    assert o.names + names + names' == o.names + (names + names');
    assert o.treeIds + treeIds + treeIds' == o.treeIds + (treeIds + treeIds');
    var u, u1, u2 := o.uids, Uids(o.uidCounter, |names|), Uids((o.uidCounter + |names|) % UID_RANGE, |names'|);
    assert u + u1 + u2 == u + (u1 + u2);
  }

  lemma TreeIdsAddUp(s: seq<(string, Node)>, t: seq<(string, Node)>)
    ensures TreeIds(s + t) == TreeIds(s) + TreeIds(t)
  {
  }

  ghost function Prefixed(done: seq<Node>, rest: Option<seq<Node>>): Option<seq<Node>> {
    if rest == None then None else Some(done + rest.value)
  }

  lemma PrefixedNone(rest: Option<seq<Node>>)
    ensures Prefixed([], rest) == rest
  {
    if rest.Some? {
      assert [] + rest.value == rest.value;
    }
  }

  lemma PrefixedOnce(done: seq<Node>, n: Node, rest: Option<seq<Node>>)
    ensures Prefixed(done, Prefixed([n], rest)) == Prefixed(done + [n], rest)
  {
    if rest.Some? {
      Slices.Assoc(done, [n], rest.value);
    }
  }

  lemma GrownNot(o: Output)
    ensures Grown(o, [], TreeIds([])) == o
  {
  }

  /** What the loop over the children has loaded and created before child `i`. */
  ghost predicate SoFar(reg: Registry, roots: Roots, rank: map<string, nat>, e: Elem, i: nat, r: nat, done: seq<Node>,
                        names: seq<string>, entered: seq<(string, Node)>)
    requires Acyclic(roots, rank) && i <= |e.kids| && Reference(e) == None && RefersBelow(roots, rank, e, r)
  {
    && LoadAll(reg, roots, rank, e, 0, r) == Prefixed(done, LoadAll(reg, roots, rank, e, i, r))
    && (LoadAll(reg, roots, rank, e, i, r).Some? ==>
          && CreatedFrom(reg, roots, rank, e, 0, r) == names + CreatedFrom(reg, roots, rank, e, i, r)
          && EnteredAll(reg, roots, rank, e, 0, r) == entered + EnteredAll(reg, roots, rank, e, i, r))
  }

  lemma SoFarAtFirst(reg: Registry, roots: Roots, rank: map<string, nat>, e: Elem, r: nat)
    requires Acyclic(roots, rank) && Reference(e) == None && RefersBelow(roots, rank, e, r)
    ensures SoFar(reg, roots, rank, e, 0, r, [], [], [])
  {
    hide LoadAll, CreatedFrom, EnteredAll;
    PrefixedNone(LoadAll(reg, roots, rank, e, 0, r));
  }

  lemma SoFarOn(reg: Registry, roots: Roots, rank: map<string, nat>, e: Elem, i: nat, r: nat, done: seq<Node>,
                names: seq<string>, entered: seq<(string, Node)>)
    requires Acyclic(roots, rank) && i < |e.kids| && Reference(e) == None && RefersBelow(roots, rank, e, r)
    requires SoFar(reg, roots, rank, e, i, r, done, names, entered)
    ensures Load(reg, roots, rank, e.kids[i], r) == None ==> LoadAll(reg, roots, rank, e, 0, r) == None
    ensures Load(reg, roots, rank, e.kids[i], r).Some? ==>
              SoFar(reg, roots, rank, e, i + 1, r, done + [Load(reg, roots, rank, e.kids[i], r).value],
                    names + Created(reg, roots, rank, e.kids[i], r), entered + Entered(reg, roots, rank, e.kids[i], r))
  {
    hide Load, Created, Entered;
    var kid := Load(reg, roots, rank, e.kids[i], r);
    if kid.Some? {
      PrefixedOnce(done, kid.value, LoadAll(reg, roots, rank, e, i + 1, r));
      if LoadAll(reg, roots, rank, e, i + 1, r).Some? {
        Slices.Assoc(names, Created(reg, roots, rank, e.kids[i], r), CreatedFrom(reg, roots, rank, e, i + 1, r));
        Slices.Assoc(entered, Entered(reg, roots, rank, e.kids[i], r), EnteredAll(reg, roots, rank, e, i + 1, r));
      }
    }
  }

  lemma SoFarAtLast(reg: Registry, roots: Roots, rank: map<string, nat>, e: Elem, r: nat, done: seq<Node>,
                    names: seq<string>, entered: seq<(string, Node)>)
    requires Acyclic(roots, rank) && Reference(e) == None && RefersBelow(roots, rank, e, r)
    requires SoFar(reg, roots, rank, e, |e.kids|, r, done, names, entered)
    ensures LoadAll(reg, roots, rank, e, 0, r) == Some(done)
    ensures CreatedFrom(reg, roots, rank, e, 0, r) == names && EnteredAll(reg, roots, rank, e, 0, r) == entered
  {
    assert done + [] == done && names + [] == names && entered + [] == entered;
  }

  class OutputTree {
    const reg: Registry
    const roots: Roots
    var uidCounter: uint16
    var names: seq<string>
    var uids: seq<nat>
    var treeIds: seq<string>

    constructor (reg: Registry, roots: Roots)
      ensures this.reg == reg && this.roots == roots && Val() == Output(0, [], [], [])
    {
      this.reg, this.roots := reg, roots;
      uidCounter, names, uids, treeIds := 0, [], [], [];
    }

    ghost function Val(): Output
      reads this
    {
      Output(uidCounter, names, uids, treeIds)
    }

    /** `++uid_counter_` on 16 bits. */
    method GetUID() returns (uid: uint16)
      modifies this`uidCounter
      ensures uid == uidCounter == (old(uidCounter) + 1) % UID_RANGE
    {
      uidCounter := (uidCounter + 1) % UID_RANGE;
      uid := uidCounter;
    }

    /** The part of `createNodeFromXML` that numbers a node and keeps it. */
    method CreateNode(typeId: string)
      modifies this
      ensures Val() == Grown(old(Val()), [typeId], [])
    {
      var uid := GetUID();
      names := names + [typeId];
      uids := uids + [uid];
      assert Uids(old(uidCounter), 1) == [uid];
    }

    /** `recursivelyCreateSubtree`; none is an exception, with which the output tree is lost. */
    method CreateSubtree(treeId: string, ghost rank: map<string, nat>) returns (node: Option<Node>)
      requires Builtin(reg) && Acyclic(roots, rank)
      modifies this
      ensures node == if treeId in roots then Load(reg, roots, rank, roots[treeId], rank[treeId]) else None
      ensures node.Some? ==>
                Val() == Grown(old(Val()), Created(reg, roots, rank, roots[treeId], rank[treeId]),
                               [treeId] + TreeIds(Entered(reg, roots, rank, roots[treeId], rank[treeId])))
      decreases if treeId in roots then 2 * rank[treeId] + 3 else 0
    {
      if treeId !in roots {
        return None;
      }
      treeIds := treeIds + [treeId];
      ghost var o := Val();
      node := RecursiveStep(roots[treeId], rank, rank[treeId]);
      if node.Some? {
        ghost var names', trees' := Created(reg, roots, rank, roots[treeId], rank[treeId]),
                                    TreeIds(Entered(reg, roots, rank, roots[treeId], rank[treeId]));
        assert o == Grown(old(Val()), [], [treeId]);
        GrownTwice(old(Val()), [], [treeId], names', trees');
        assert [] + names' == names';
      }
    }

    /** The recursive function inside `recursivelyCreateSubtree`. */
    method RecursiveStep(e: Elem, ghost rank: map<string, nat>, ghost r: nat) returns (node: Option<Node>)
      requires Builtin(reg) && Acyclic(roots, rank) && RefersBelow(roots, rank, e, r)
      modifies this
      ensures node == Load(reg, roots, rank, e, r)
      ensures node.Some? ==> Val() == Grown(old(Val()), Created(reg, roots, rank, e, r),
                                            TreeIds(Entered(reg, roots, rank, e, r)))
      decreases 2 * r + 2, e
    {
      var typeId := TypeId(reg, e);
      if typeId == None {
        return None;
      }
      if Reference(e).Some? {
        var id := typeId.value;
        CreateNode(id);
        var body := CreateSubtree(id, rank);
        if body == None {
          return None;
        }
        ghost var names', entered := Created(reg, roots, rank, roots[id], rank[id]),
                                     Entered(reg, roots, rank, roots[id], rank[id]);
        GrownTwice(old(Val()), [id], [], names', [id] + TreeIds(entered));
        TreeIdsAddUp([(id, body.value)], entered);
        assert [] + ([id] + TreeIds(entered)) == TreeIds([(id, body.value)]) + TreeIds(entered);
        return Some(Sub(if e.name == "SubTree" then typeId.value else "", typeId.value, body.value));
      }
      if typeId.value !in reg {
        return None;
      }
      CreateNode(typeId.value);
      var kids := Children(e, rank, r);
      if kids == None {
        return None;
      }
      ghost var names' := CreatedFrom(reg, roots, rank, e, 0, r);
      ghost var trees' := TreeIds(EnteredAll(reg, roots, rank, e, 0, r));
      GrownTwice(old(Val()), [typeId.value], [], names', trees');
      assert [] + trees' == trees';
      node := Attach(reg[typeId.value], typeId.value, kids.value);
    }

    /** The loop over the children of an element that is no subtree. */
    method Children(e: Elem, ghost rank: map<string, nat>, ghost r: nat) returns (kids: Option<seq<Node>>)
      requires Builtin(reg) && Acyclic(roots, rank) && Reference(e) == None && RefersBelow(roots, rank, e, r)
      modifies this
      ensures kids == LoadAll(reg, roots, rank, e, 0, r)
      ensures kids.Some? ==> Val() == Grown(old(Val()), CreatedFrom(reg, roots, rank, e, 0, r),
                                            TreeIds(EnteredAll(reg, roots, rank, e, 0, r)))
      decreases 2 * r + 2, e, 0
    {
      hide SoFar, LoadAll, Load, Created, CreatedFrom, Entered, EnteredAll, Grown, TreeIds;
      var done: seq<Node> := [];
      ghost var names': seq<string>, entered: seq<(string, Node)> := [], [];
      GrownNot(Val());
      SoFarAtFirst(reg, roots, rank, e, r);
      for i := 0 to |e.kids|
        invariant Val() == Grown(old(Val()), names', TreeIds(entered))
        invariant SoFar(reg, roots, rank, e, i, r, done, names', entered)
      {
        SoFarOn(reg, roots, rank, e, i, r, done, names', entered);
        var kid := RecursiveStep(e.kids[i], rank, r);
        if kid == None {
          return None;
        }
        ghost var n1, t1 := Created(reg, roots, rank, e.kids[i], r), Entered(reg, roots, rank, e.kids[i], r);
        GrownTwice(old(Val()), names', TreeIds(entered), n1, TreeIds(t1));
        TreeIdsAddUp(entered, t1);
        names', entered := names' + n1, entered + t1;
        done := done + [kid.value];
      }
      SoFarAtLast(reg, roots, rank, e, r, done, names', entered);
      return Some(done);
    }
  }

  /** `instantiateTree`: on a new output tree the nodes are numbered 1 to their count, as long as the
      count fits, and no two alike as long as there are no more than numbers. */
  method InstantiateTree(reg: Registry, roots: Roots, main: string, ghost rank: map<string, nat>)
    returns (node: Option<Node>, tree: OutputTree)
    requires Builtin(reg) && Acyclic(roots, rank)
    ensures fresh(tree)
    ensures node == if main in roots then Load(reg, roots, rank, roots[main], rank[main]) else None
    ensures node.Some? ==>
              && tree.names == Created(reg, roots, rank, roots[main], rank[main]) && |tree.uids| == |tree.names|
              && tree.treeIds == TreeIds(TreesOf(reg, roots, rank, main))
              && (|tree.uids| < UID_RANGE ==> FromOneOn(tree.uids))
              && (NoTwoAlike(tree.uids) <==> |tree.uids| <= UID_RANGE)
  {
    hide NoTwoAlike, FromOneOn, Uids;
    tree := new OutputTree(reg, roots);
    node := tree.CreateSubtree(main, rank);
    if node.Some? {
      ghost var n := |Created(reg, roots, rank, roots[main], rank[main])|;
      UidsCount(n);
      assert tree.uids == Uids(0, n);
      TreeIdsAddUp([(main, node.value)], Entered(reg, roots, rank, roots[main], rank[main]));
    }
  }
}
