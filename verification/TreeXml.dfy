/**
  Behavior trees and their XML: verification of the elements, recursive expansion of subtrees, and
  the export of a tree.  An element keeps its name, its attribute `ID` and its children; ports,
  scripts and instance names are not modelled, and registered names are not substituted.
*/
module TreeXml {
  import opened Wrappers

  datatype Elem = Elem(name: string, id: Option<string>, kids: seq<Elem>)

  datatype Kind = LeafKind | ControlKind | DecoratorKind | SubTreeKind

  /** What the factory builds under each registered name. */
  type Registry = map<string, Kind>

  /** The root elements of the trees of a document by tree ID. */
  type Roots = map<string, Elem>

  /** A node of a loaded tree; `Sub` is a subtree node with the ID it was given, the ID of the tree
      below it and the root of that tree. */
  datatype Node =
    | Plain(id: string, kids: seq<Node>)
    | Sub(subtreeId: string, treeId: string, body: Node)

  // ----- names -----

  /** The names that `convertFromString<NodeType>` knows. */
  predicate Keyword(name: string) {
    name in {"Action", "Condition", "Control", "Decorator", "SubTree"}
  }

  predicate ControlName(name: string) {
    name in {"Sequence", "SequenceStar", "Fallback"}
  }

  /** Only the builtin subtree node is of its kind. */
  ghost predicate Builtin(reg: Registry) {
    "SubTree" in reg && forall k :: k in reg ==> (reg[k] == SubTreeKind <==> k == "SubTree")
  }

  /** The name the factory is asked for; none is an exception. */
  function TypeId(reg: Registry, e: Elem): Option<string> {
    if Keyword(e.name) then e.id
    else if e.name !in reg || e.id.Some? then None
    else Some(e.name)
  }

  /** Whether the factory builds a node of that kind under the name. */
  predicate IsKind(reg: Registry, id: Option<string>, kind: Kind) {
    id.Some? && id.value in reg && reg[id.value] == kind
  }

  // ----- verification -----

  predicate VerifiedHere(reg: Registry, e: Elem) {
    if e.name == "Decorator" then |e.kids| == 1 && e.id.Some?
    else if e.name == "Action" || e.name == "Condition" then e.kids == [] && e.id.Some?
    else if e.name == "Control" then e.kids != [] && e.id.Some?
    else if ControlName(e.name) then e.kids != []
    else if e.name == "SubTree" then e.kids == [] && e.id.Some?
    else if e.name == "BehaviorTree" then |e.kids| == 1
    else e.name in reg && (reg[e.name] == DecoratorKind ==> |e.kids| == 1)
  }

  /** `recursiveStep` of `VerifyXML`. */
  predicate Verified(reg: Registry, e: Elem) {
    VerifiedHere(reg, e) && (e.name != "SubTree" ==> forall i :: 0 <= i < |e.kids| ==> Verified(reg, e.kids[i]))
  }

  // ----- loading -----

  /** The tree that an element refers to. */
  function Reference(e: Elem): Option<string> {
    if e.name == "SubTree" || (Keyword(e.name) && e.id == Some("SubTree")) then e.id else None
  }

  /** The trees referred to in the element rank below `r`. */
  ghost predicate RefersBelow(roots: Roots, rank: map<string, nat>, e: Elem, r: nat) {
    if Reference(e).Some? then
      Reference(e).value in roots ==> Reference(e).value in rank && rank[Reference(e).value] < r
    else
      forall i :: 0 <= i < |e.kids| ==> RefersBelow(roots, rank, e.kids[i], r)
  }

  /** No tree refers to itself through others. */
  ghost predicate Acyclic(roots: Roots, rank: map<string, nat>) {
    forall t :: t in roots ==> t in rank && RefersBelow(roots, rank, roots[t], rank[t])
  }

  /** The node an element is loaded to; none is an exception. */
  ghost function Load(reg: Registry, roots: Roots, rank: map<string, nat>, e: Elem, r: nat): Option<Node>
    requires Acyclic(roots, rank) && RefersBelow(roots, rank, e, r)
    decreases r, e, |e.kids| + 1
  {
    var typeId := TypeId(reg, e);
    if typeId == None then None
    else if Reference(e).Some? then
      if typeId.value !in roots || "SubTree" !in reg then None
      else
        var body := Load(reg, roots, rank, roots[typeId.value], rank[typeId.value]);
        if body == None then None
        else Some(Sub(if e.name == "SubTree" then typeId.value else "", typeId.value, body.value))
    else if typeId.value !in reg then None
    else
      var kids := LoadAll(reg, roots, rank, e, 0, r);
      if kids == None then None else Attach(reg[typeId.value], typeId.value, kids.value)
  }

  /** A leaf keeps no child, and a decorator throws at the second. */
  function Attach(kind: Kind, id: string, kids: seq<Node>): Option<Node> {
    if kind == LeafKind then Some(Plain(id, []))
    else if kind == DecoratorKind && |kids| > 1 then None
    else Some(Plain(id, kids))
  }

  /** The children of `e` from `i` on. */
  ghost function LoadAll(reg: Registry, roots: Roots, rank: map<string, nat>, e: Elem, i: nat, r: nat):
    Option<seq<Node>>
    requires Acyclic(roots, rank) && i <= |e.kids| && Reference(e) == None && RefersBelow(roots, rank, e, r)
    decreases r, e, |e.kids| - i
  {
    if i == |e.kids| then Some([])
    else
      var first := Load(reg, roots, rank, e.kids[i], r);
      var rest := LoadAll(reg, roots, rank, e, i + 1, r);
      if first == None || rest == None then None else Some([first.value] + rest.value)
  }

  /** The trees created while an element is loaded, by ID and root, in the order of their creation.
      A leaf that is given children drops them, but the trees created for them stay. */
  ghost function Entered(reg: Registry, roots: Roots, rank: map<string, nat>, e: Elem, r: nat): seq<(string, Node)>
    requires Acyclic(roots, rank) && RefersBelow(roots, rank, e, r) && Load(reg, roots, rank, e, r).Some?
    decreases r, e, |e.kids| + 1
  {
    var id := TypeId(reg, e).value;
    if Reference(e).Some? then
      [(id, Load(reg, roots, rank, roots[id], rank[id]).value)] + Entered(reg, roots, rank, roots[id], rank[id])
    else EnteredAll(reg, roots, rank, e, 0, r)
  }

  ghost function EnteredAll(reg: Registry, roots: Roots, rank: map<string, nat>, e: Elem, i: nat, r: nat):
    seq<(string, Node)>
    requires Acyclic(roots, rank) && i <= |e.kids| && Reference(e) == None && RefersBelow(roots, rank, e, r)
    requires LoadAll(reg, roots, rank, e, i, r).Some?
    decreases r, e, |e.kids| - i
  {
    if i == |e.kids| then []
    else Entered(reg, roots, rank, e.kids[i], r) + EnteredAll(reg, roots, rank, e, i + 1, r)
  }

  // ----- export -----

  /** Every decorator has its child; the export follows a null pointer where it has not. */
  predicate Attached(reg: Registry, n: Node) {
    match n
    case Plain(id, kids) =>
      (id in reg && reg[id] == DecoratorKind ==> |kids| == 1) && forall i :: 0 <= i < |kids| ==> Attached(reg, kids[i])
    case Sub(_, _, body) => Attached(reg, body)
  }

  /** `addNode`. */
  function Unload(n: Node): Elem {
    match n
    case Plain(id, kids) => Elem(id, None, seq(|kids|, i requires 0 <= i < |kids| => Unload(kids[i])))
    case Sub(subtreeId, _, _) => Elem("SubTree", Some(subtreeId), [])
  }

  /** The subtrees below a node, with their roots. */
  function Subtrees(n: Node): seq<(string, Node)> {
    match n
    case Plain(_, kids) => SubtreesOfAll(kids)
    case Sub(_, treeId, body) => [(treeId, body)] + Subtrees(body)
  }

  function SubtreesOfAll(kids: seq<Node>): seq<(string, Node)> {
    if kids == [] then [] else Subtrees(kids[0]) + SubtreesOfAll(kids[1..])
  }

  /** The elements `BehaviorTree` of the written document, by ID and root. */
  function Exported(trees: seq<(string, Node)>): seq<(string, Elem)> {
    seq(|trees|, i requires 0 <= i < |trees| => (trees[i].0, Unload(trees[i].1)))
  }

  /** `tree_roots` after a document with these trees: of two with one ID the last counts. */
  function RootsOf(trees: seq<(string, Elem)>): Roots {
    if trees == [] then map[]
    else RootsOf(trees[..|trees| - 1])[trees[|trees| - 1].0 := trees[|trees| - 1].1]
  }

  method RegisterTrees(trees: seq<(string, Elem)>) returns (roots: Roots)
    ensures roots == RootsOf(trees)
  {
    roots := map[];
    for i := 0 to |trees|
      invariant roots == RootsOf(trees[..i])
    {
      assert trees[..i + 1][..i] == trees[..i];
      roots := roots[trees[i].0 := trees[i].1];
    }
    assert trees[..|trees|] == trees;
  }

  ghost predicate AllVerified(reg: Registry, trees: seq<(string, Elem)>) {
    forall i :: 0 <= i < |trees| ==> Verified(reg, trees[i].1)
  }

  // ----- what a loaded tree looks like -----

  /** Every subtree of the node is the loaded tree of its ID, and ranks below `r`. */
  ghost predicate From(reg: Registry, roots: Roots, rank: map<string, nat>, n: Node, r: nat)
    requires Acyclic(roots, rank)
  {
    match n
    case Plain(id, kids) =>
      && id in reg && reg[id] != SubTreeKind && (reg[id] == LeafKind ==> kids == [])
      && (reg[id] == DecoratorKind ==> |kids| <= 1)
      && forall i :: 0 <= i < |kids| ==> From(reg, roots, rank, kids[i], r)
    case Sub(subtreeId, treeId, body) =>
      && treeId in roots && rank[treeId] < r && (subtreeId == treeId || subtreeId == "")
      && Load(reg, roots, rank, roots[treeId], rank[treeId]) == Some(body)
      && From(reg, roots, rank, body, rank[treeId])
  }

  lemma {:induction false} LoadedIsFrom(reg: Registry, roots: Roots, rank: map<string, nat>, e: Elem, r: nat)
    requires Builtin(reg) && Acyclic(roots, rank) && RefersBelow(roots, rank, e, r)
    requires Load(reg, roots, rank, e, r).Some?
    ensures From(reg, roots, rank, Load(reg, roots, rank, e, r).value, r)
    decreases r, e, |e.kids| + 1
  {
    var id := TypeId(reg, e).value;
    if Reference(e).Some? {
      LoadedIsFrom(reg, roots, rank, roots[id], rank[id]);
    } else {
      AllLoadedAreFrom(reg, roots, rank, e, 0, r);
    }
  }

  lemma {:induction false} AllLoadedAreFrom(reg: Registry, roots: Roots, rank: map<string, nat>, e: Elem, i: nat,
                                            r: nat)
    requires Builtin(reg) && Acyclic(roots, rank) && i <= |e.kids| && Reference(e) == None
    requires RefersBelow(roots, rank, e, r) && LoadAll(reg, roots, rank, e, i, r).Some?
    ensures forall n :: n in LoadAll(reg, roots, rank, e, i, r).value ==> From(reg, roots, rank, n, r)
    decreases r, e, |e.kids| - i
  {
    if i < |e.kids| {
      LoadedIsFrom(reg, roots, rank, e.kids[i], r);
      AllLoadedAreFrom(reg, roots, rank, e, i + 1, r);
    }
  }

  lemma {:induction false} EnteredAreLoaded(reg: Registry, roots: Roots, rank: map<string, nat>, e: Elem, r: nat)
    requires Builtin(reg) && Acyclic(roots, rank) && RefersBelow(roots, rank, e, r)
    requires Load(reg, roots, rank, e, r).Some?
    ensures forall t :: t in Entered(reg, roots, rank, e, r) ==> IsLoaded(reg, roots, rank, t.0, t.1)
    ensures forall t :: t in Subtrees(Load(reg, roots, rank, e, r).value) ==> t in Entered(reg, roots, rank, e, r)
    decreases r, e, |e.kids| + 1
  {
    var id := TypeId(reg, e).value;
    if Reference(e).Some? {
      LoadedIsFrom(reg, roots, rank, roots[id], rank[id]);
      EnteredAreLoaded(reg, roots, rank, roots[id], rank[id]);
    } else {
      AllEnteredAreLoaded(reg, roots, rank, e, 0, r);
    }
  }

  lemma {:induction false} AllEnteredAreLoaded(reg: Registry, roots: Roots, rank: map<string, nat>, e: Elem, i: nat,
                                               r: nat)
    requires Builtin(reg) && Acyclic(roots, rank) && i <= |e.kids| && Reference(e) == None
    requires RefersBelow(roots, rank, e, r) && LoadAll(reg, roots, rank, e, i, r).Some?
    ensures forall t :: t in EnteredAll(reg, roots, rank, e, i, r) ==> IsLoaded(reg, roots, rank, t.0, t.1)
    ensures forall t :: t in SubtreesOfAll(LoadAll(reg, roots, rank, e, i, r).value) ==>
              t in EnteredAll(reg, roots, rank, e, i, r)
    decreases r, e, |e.kids| - i
  {
    if i < |e.kids| {
      EnteredAreLoaded(reg, roots, rank, e.kids[i], r);
      AllEnteredAreLoaded(reg, roots, rank, e, i + 1, r);
    }
  }

  /** The node is the loaded tree of that ID. */
  ghost predicate IsLoaded(reg: Registry, roots: Roots, rank: map<string, nat>, id: string, n: Node)
    requires Acyclic(roots, rank)
  {
    && id in roots && Load(reg, roots, rank, roots[id], rank[id]) == Some(n)
    && From(reg, roots, rank, n, rank[id])
  }

  // ----- the written document -----

  /** Each element of the list is the written form of the loaded tree of its ID. */
  ghost predicate Written(reg: Registry, roots: Roots, rank: map<string, nat>, id: string, e: Elem)
    requires Acyclic(roots, rank)
  {
    exists n :: IsLoaded(reg, roots, rank, id, n) && e == Unload(n)
  }

  /** Trees of one ID are written alike, so that it does not matter which of them counts. */
  lemma {:induction false} RootsAreWritten(reg: Registry, roots: Roots, rank: map<string, nat>,
                                           trees: seq<(string, Elem)>)
    requires Acyclic(roots, rank) && forall t :: t in trees ==> Written(reg, roots, rank, t.0, t.1)
    ensures forall id :: id in RootsOf(trees) ==> Written(reg, roots, rank, id, RootsOf(trees)[id])
    ensures forall t :: t in trees ==> t.0 in RootsOf(trees) && RootsOf(trees)[t.0] == t.1
  {
    if trees != [] {
      var init, last := trees[..|trees| - 1], trees[|trees| - 1];
      RootsAreWritten(reg, roots, rank, init);
      assert Written(reg, roots, rank, last.0, last.1);
      forall t | t in trees
        ensures t.0 in RootsOf(trees) && RootsOf(trees)[t.0] == t.1
      {
        if t != last {
          assert t in init;
        }
        assert Written(reg, roots, rank, t.0, t.1);
      }
    }
  }

  lemma ExportIsWritten(reg: Registry, roots: Roots, rank: map<string, nat>, trees: seq<(string, Node)>)
    requires Acyclic(roots, rank) && forall t :: t in trees ==> IsLoaded(reg, roots, rank, t.0, t.1)
    ensures forall t :: t in Exported(trees) ==> Written(reg, roots, rank, t.0, t.1)
  {
  }

  /** Every subtree node carries the ID of the tree below it. */
  predicate Matched(n: Node) {
    match n
    case Plain(_, kids) => forall i :: 0 <= i < |kids| ==> Matched(kids[i])
    case Sub(subtreeId, treeId, body) => subtreeId == treeId && Matched(body)
  }

  lemma {:induction false} UnloadRefersBelow(reg: Registry, roots: Roots, written: Roots, rank: map<string, nat>,
                                             n: Node, r: nat)
    requires Builtin(reg) && Acyclic(roots, rank) && From(reg, roots, rank, n, r) && "" !in written
    ensures RefersBelow(written, rank, Unload(n), r)
    decreases n
  {
    match n
    case Plain(id, kids) =>
      assert id != "SubTree";
      forall i | 0 <= i < |kids|
        ensures RefersBelow(written, rank, Unload(kids[i]), r)
      {
        UnloadRefersBelow(reg, roots, written, rank, kids[i], r);
      }
    case Sub(_, treeId, body) =>
  }

  lemma {:induction false} RootsComeFromList(trees: seq<(string, Elem)>)
    ensures forall id :: id in RootsOf(trees) ==> exists t :: t in trees && t == (id, RootsOf(trees)[id])
  {
    if trees != [] {
      var init, last := trees[..|trees| - 1], trees[|trees| - 1];
      RootsComeFromList(init);
      forall id | id in RootsOf(trees)
        ensures exists t :: t in trees && t == (id, RootsOf(trees)[id])
      {
        if id == last.0 {
          assert last in trees;
        } else {
          var t :| t in init && t == (id, RootsOf(init)[id]);
          assert t in trees;
        }
      }
    }
  }

  /** Where the root registered under an ID comes from. */
  lemma Source(trees: seq<(string, Node)>, id: string) returns (i: nat)
    requires id in RootsOf(Exported(trees))
    ensures i < |trees| && trees[i].0 == id && RootsOf(Exported(trees))[id] == Unload(trees[i].1)
  {
    RootsComeFromList(Exported(trees));
    var t :| t in Exported(trees) && t == (id, RootsOf(Exported(trees))[id]);
    i :| 0 <= i < |trees| && t == (trees[i].0, Unload(trees[i].1));
  }

  /** What was written has no cycle either: a subtree node without an ID of its own refers to no tree. */
  lemma WrittenIsAcyclic(reg: Registry, roots: Roots, rank: map<string, nat>, trees: seq<(string, Node)>)
    requires Builtin(reg) && Acyclic(roots, rank) && "" !in roots
    requires forall t :: t in trees ==> IsLoaded(reg, roots, rank, t.0, t.1)
    ensures Acyclic(RootsOf(Exported(trees)), rank) && "" !in RootsOf(Exported(trees))
  {
    hide From, RefersBelow, Load;
    var written := RootsOf(Exported(trees));
    forall id | id in written
      ensures id in roots
    {
      var i := Source(trees, id);
      assert trees[i] in trees;
    }
    forall id | id in written
      ensures id in rank && RefersBelow(written, rank, written[id], rank[id])
    {
      var i := Source(trees, id);
      assert trees[i] in trees;
      UnloadRefersBelow(reg, roots, written, rank, trees[i].1, rank[id]);
    }
  }

  // ----- when the written document is read again -----

  /** A registered name that is a keyword of the format is written as the keyword, without an ID. */
  predicate Readable(id: string, children: nat) {
    && !Keyword(id)
    && (ControlName(id) ==> children > 0)
    && (id == "BehaviorTree" ==> children == 1)
  }

  /** All nodes down to the next subtrees are readable. */
  predicate PartReadable(n: Node) {
    match n
    case Plain(id, kids) => Readable(id, |kids|) && forall i :: 0 <= i < |kids| ==> PartReadable(kids[i])
    case Sub(_, _, _) => true
  }

  /** The written form of a part is verified exactly when the part is readable. */
  lemma {:induction false} VerifiedExactly(reg: Registry, roots: Roots, rank: map<string, nat>, n: Node, r: nat)
    requires Builtin(reg) && Acyclic(roots, rank) && From(reg, roots, rank, n, r) && Attached(reg, n)
    ensures Verified(reg, Unload(n)) <==> PartReadable(n)
    decreases n
  {
    match n
    case Plain(id, kids) =>
      assert id != "SubTree";
      assert VerifiedHere(reg, Unload(n)) <==> Readable(id, |kids|);
      forall i | 0 <= i < |kids|
        ensures Verified(reg, Unload(kids[i])) <==> PartReadable(kids[i])
      {
        VerifiedExactly(reg, roots, rank, kids[i], r);
      }
      assert forall i :: 0 <= i < |kids| ==> Unload(n).kids[i] == Unload(kids[i]);
    case Sub(_, _, _) =>
  }

  /** Readable nodes, and readable subtrees below them, are loaded again as they were, unless a subtree
      node does not carry the ID of its tree. */
  lemma {:induction false} LoadInvertsUnload(reg: Registry, roots: Roots, written: Roots, rank: map<string, nat>,
                                             n: Node, r: nat)
    requires Builtin(reg) && Acyclic(roots, rank) && From(reg, roots, rank, n, r)
    requires Acyclic(written, rank) && RefersBelow(written, rank, Unload(n), r)
    requires PartReadable(n) && "" !in written
    requires forall t :: t in Subtrees(n) ==> t.0 in written && written[t.0] == Unload(t.1) && PartReadable(t.1)
    ensures Load(reg, written, rank, Unload(n), r) == if Matched(n) then Some(n) else None
    decreases n, if n.Plain? then |n.kids| + 1 else 0
  {
    match n
    case Plain(id, kids) =>
      assert kids[0..] == kids;
      AllLoadedAgain(reg, roots, written, rank, n, 0, r);
    case Sub(_, treeId, body) =>
      assert Subtrees(n)[0] == (treeId, body);
      assert forall t :: t in Subtrees(body) ==> t in Subtrees(n);
      LoadInvertsUnload(reg, roots, written, rank, body, rank[treeId]);
  }

  lemma {:induction false} AllLoadedAgain(reg: Registry, roots: Roots, written: Roots, rank: map<string, nat>, n: Node,
                                          i: nat, r: nat)
    requires n.Plain? && i <= |n.kids|
    requires Builtin(reg) && Acyclic(roots, rank) && From(reg, roots, rank, n, r)
    requires Acyclic(written, rank) && RefersBelow(written, rank, Unload(n), r)
    requires PartReadable(n) && "" !in written && Reference(Unload(n)) == None
    requires forall t :: t in SubtreesOfAll(n.kids[i..]) ==>
               t.0 in written && written[t.0] == Unload(t.1) && PartReadable(t.1)
    ensures LoadAll(reg, written, rank, Unload(n), i, r) ==
            if forall k :: i <= k < |n.kids| ==> Matched(n.kids[k]) then Some(n.kids[i..]) else None
    decreases n, |n.kids| - i
  {
    if i < |n.kids| {
      assert Unload(n).kids[i] == Unload(n.kids[i]);
      assert n.kids[i..] == [n.kids[i]] + n.kids[i + 1..];
      assert n.kids[i..][0] == n.kids[i] && n.kids[i..][1..] == n.kids[i + 1..];
      LoadInvertsUnload(reg, roots, written, rank, n.kids[i], r);
      AllLoadedAgain(reg, roots, written, rank, n, i + 1, r);
    } else {
      assert LoadAll(reg, written, rank, Unload(n), i, r) == Some([]);
      assert n.kids[i..] == [];
    }
  }

  /** Reading a document that was written: it is verified, its trees are registered, and the tree of
      the given ID is loaded. */
  ghost function Reload(reg: Registry, rank: map<string, nat>, main: string, trees: seq<(string, Elem)>): Option<Node>
    requires Acyclic(RootsOf(trees), rank)
  {
    var roots := RootsOf(trees);
    if !AllVerified(reg, trees) || main !in roots then None
    else Load(reg, roots, rank, roots[main], rank[main])
  }

  /** All trees of a loaded tree, its own first. */
  ghost function TreesOf(reg: Registry, roots: Roots, rank: map<string, nat>, main: string): seq<(string, Node)>
    requires Acyclic(roots, rank) && main in roots && Load(reg, roots, rank, roots[main], rank[main]).Some?
  {
    [(main, Load(reg, roots, rank, roots[main], rank[main]).value)]
    + Entered(reg, roots, rank, roots[main], rank[main])
  }

  datatype Outcome = NullDereference | Read(node: Option<Node>)

  /** Writing all trees and reading them again under the ID of the main tree. */
  ghost function WriteAndRead(reg: Registry, rank: map<string, nat>, main: string, trees: seq<(string, Node)>): Outcome
    requires Acyclic(RootsOf(Exported(trees)), rank)
  {
    if forall t :: t in trees ==> Attached(reg, t.1) then Read(Reload(reg, rank, main, Exported(trees)))
    else NullDereference
  }

  /** A loaded tree that is written and read again under the same ID has the same expanded shape and
      the same registration IDs exactly when all nodes of its trees are readable and every subtree node
      carries the ID of its tree; otherwise reading throws.  Writing follows a null pointer exactly when
      a decorator of one of the trees has no child. */
  lemma ReloadsExactly(reg: Registry, roots: Roots, rank: map<string, nat>, main: string)
    requires Builtin(reg) && Acyclic(roots, rank) && main in roots && "" !in roots
    requires Load(reg, roots, rank, roots[main], rank[main]).Some?
    ensures var trees := TreesOf(reg, roots, rank, main);
            var n := Load(reg, roots, rank, roots[main], rank[main]).value;
            && Acyclic(RootsOf(Exported(trees)), rank)
            && WriteAndRead(reg, rank, main, trees) ==
               if exists t :: t in trees && !Attached(reg, t.1) then NullDereference
               else if Matched(n) && forall t :: t in trees ==> PartReadable(t.1) then Read(Some(n))
               else Read(None)
  {
    hide From, RefersBelow, Load, Matched, Attached, PartReadable, Verified, Entered, Reload;
    var trees := TreesOf(reg, roots, rank, main);
    AllAreLoaded(reg, roots, rank, main);
    WrittenIsAcyclic(reg, roots, rank, trees);
    if forall t :: t in trees ==> Attached(reg, t.1) {
      AttachedReloads(reg, roots, rank, main);
    }
  }

  lemma AttachedReloads(reg: Registry, roots: Roots, rank: map<string, nat>, main: string)
    requires Builtin(reg) && Acyclic(roots, rank) && main in roots && "" !in roots
    requires Load(reg, roots, rank, roots[main], rank[main]).Some?
    requires forall t :: t in TreesOf(reg, roots, rank, main) ==> Attached(reg, t.1)
    requires Acyclic(RootsOf(Exported(TreesOf(reg, roots, rank, main))), rank)
    ensures var trees := TreesOf(reg, roots, rank, main);
            var n := Load(reg, roots, rank, roots[main], rank[main]).value;
            Reload(reg, rank, main, Exported(trees)) ==
            if Matched(n) && forall t :: t in trees ==> PartReadable(t.1) then Some(n) else None
  {
    hide From, RefersBelow, Load, Matched, Attached, PartReadable, Verified, Entered;
    var trees := TreesOf(reg, roots, rank, main);
    var n := Load(reg, roots, rank, roots[main], rank[main]).value;
    AllAreLoaded(reg, roots, rank, main);
    WrittenIsAcyclic(reg, roots, rank, trees);
    ExportIsWritten(reg, roots, rank, trees);
    RootsAreWritten(reg, roots, rank, Exported(trees));
    var written := RootsOf(Exported(trees));
    TreesAreExported(trees);
    AllVerifiedExactly(reg, roots, rank, trees);
    assert trees[0] == (main, n);
    if forall t :: t in trees ==> PartReadable(t.1) {
      WrittenRefers(written, rank, main);
      LoadInvertsUnload(reg, roots, written, rank, n, rank[main]);
    }
  }

  lemma AllAreLoaded(reg: Registry, roots: Roots, rank: map<string, nat>, main: string)
    requires Builtin(reg) && Acyclic(roots, rank) && main in roots
    requires Load(reg, roots, rank, roots[main], rank[main]).Some?
    ensures var trees := TreesOf(reg, roots, rank, main);
            && (forall t :: t in trees ==> IsLoaded(reg, roots, rank, t.0, t.1))
            && (forall t :: t in Subtrees(trees[0].1) ==> t in trees)
            && From(reg, roots, rank, trees[0].1, rank[main])
  {
    LoadedIsFrom(reg, roots, rank, roots[main], rank[main]);
    EnteredAreLoaded(reg, roots, rank, roots[main], rank[main]);
  }

  lemma WrittenRefers(written: Roots, rank: map<string, nat>, main: string)
    requires main in written && Acyclic(written, rank)
    ensures RefersBelow(written, rank, written[main], rank[main])
  {
  }

  lemma TreesAreExported(trees: seq<(string, Node)>)
    ensures forall t :: t in trees ==> (t.0, Unload(t.1)) in Exported(trees)
  {
    forall t | t in trees
      ensures (t.0, Unload(t.1)) in Exported(trees)
    {
      var i :| 0 <= i < |trees| && trees[i] == t;
      assert Exported(trees)[i] == (t.0, Unload(t.1));
    }
  }

  lemma AllVerifiedExactly(reg: Registry, roots: Roots, rank: map<string, nat>, trees: seq<(string, Node)>)
    requires Builtin(reg) && Acyclic(roots, rank)
    requires forall t :: t in trees ==> IsLoaded(reg, roots, rank, t.0, t.1) && Attached(reg, t.1)
    ensures AllVerified(reg, Exported(trees)) <==> forall t :: t in trees ==> PartReadable(t.1)
  {
    hide From, RefersBelow, Load, Attached, PartReadable, Verified;
    forall i | 0 <= i < |trees|
      ensures Verified(reg, Exported(trees)[i].1) <==> PartReadable(trees[i].1)
    {
      assert trees[i] in trees;
      VerifiedExactly(reg, roots, rank, trees[i].1, rank[trees[i].0]);
    }
  }
}
