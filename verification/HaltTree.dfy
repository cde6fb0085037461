/**
  Halting a whole tree.  The nodes' links are fixed once the tree is built; statuses are whatever
  earlier ticks left behind.  Subclasses of `ControlNode` are taken to end their `halt` in
  `ControlNode::halt`.
*/
module HaltTree {
  import opened BtStatus

  datatype Kind = StatefulAction | OtherLeaf | Control | Decorator

  /** How many `onHalted` calls a halt of a node in this status makes. */
  function Halts(kind: Kind, status: NodeStatus): nat {
    if kind == StatefulAction && status == RUNNING then 1 else 0
  }

  /** What halting may do to a node below the one that is halted: nothing, or halt it, when it was
      RUNNING, and make it IDLE. */
  predicate Settles(kind: Kind, before: NodeStatus, halts: nat, after: NodeStatus, halts': nat) {
    || (after == before && halts' == halts)
    || (after == IDLE && halts' == halts + Halts(kind, before))
  }

  /** What halting does to a node below the one that is halted, when halting reaches it or not. */
  predicate Halted(kind: Kind, reached: bool, before: NodeStatus, halts: nat, after: NodeStatus, halts': nat) {
    && Settles(kind, before, halts, after, halts')
    && (reached ==> after == IDLE && halts' == halts + Halts(kind, before))
    && (!reached ==> halts' == halts && (before == RUNNING ==> after == RUNNING))
  }

  class TreeNode {
    const kind: Kind
    const children: seq<TreeNode>   // of a control node
    const child: TreeNode?          // of a decorator
    ghost const height: nat
    ghost const below: set<TreeNode>   // the nodes below this one

    var status: NodeStatus
    var haltRequested: bool
    var onHaltedCalls: nat

    constructor (kind: Kind, children: seq<TreeNode>, child: TreeNode?, ghost height: nat)
      requires kind != Control ==> children == []
      requires kind != Decorator ==> child == null
      requires forall c :: c in children ==> c.Valid() && c.height < height
      requires child != null ==> child.Valid() && child.height < height
      requires forall i, j :: 0 <= i < j < |children| ==> children[i].Nodes() !! children[j].Nodes()
      ensures Valid() && status == IDLE && onHaltedCalls == 0
      ensures this.kind == kind && this.children == children && this.child == child && this.height == height
    {
      this.kind, this.children, this.child, this.height := kind, children, child, height;
      below := (set c, n | c in children && n in c.Nodes() :: n) + if child == null then {} else child.Nodes();
      status, haltRequested, onHaltedCalls := IDLE, false, 0;
      new;
      hide Valid;
      forall n | n in below ensures n.height < height && Covers(n) {
        if c :| c in children && n in c.Nodes() {
          c.Lower();
        } else {
          child.Lower();
        }
      }
      ValidIntro();
    }

    /** The links and the ghost fields of this node: children lie lower, so there is no cycle. */
    ghost predicate Linked() {
      && (kind != Control ==> children == [])
      && (kind != Decorator ==> child == null)
      && (forall c :: c in children ==> c.height < height && c.Nodes() <= below)
      && (child != null ==> child.height < height && child.Nodes() <= below)
      && (forall n :: n in below ==> n.height < height)
      && (forall n :: n in below ==> Covers(n))
      && (forall i, j :: 0 <= i < j < |children| ==> children[i].Nodes() !! children[j].Nodes())
    }

    /** Does `n` lie in the subtree of a child? */
    ghost predicate Covers(n: TreeNode) {
      (exists k :: 0 <= k < |children| && n in children[k].Nodes()) || (child != null && n in child.Nodes())
    }

    ghost predicate Valid()
      decreases height
    {
      && Linked()
      && (forall c :: c in children ==> c.Valid())
      && (child != null ==> child.Valid())
    }

    ghost function Nodes(): set<TreeNode> {
      {this} + below
    }

    /** `s` holds the statuses of this node and all below it. */
    ghost predicate Shows(s: map<TreeNode, NodeStatus>)
      reads Nodes()
    {
      forall n :: n in Nodes() ==> n in s && s[n] == n.status
    }

    /** Is `n`, a node below this one, reached when this node is halted?  Halting goes on from RUNNING
        children only. */
    ghost predicate Reaches(s: map<TreeNode, NodeStatus>, n: TreeNode)
      requires Valid()
      decreases height, 0
    {
      || (exists k :: 0 <= k < |children| && children[k].Passes(s, n))
      || (child != null && child.Passes(s, n))
    }

    /** Halting goes on from this child and reaches `n`, which is in its subtree. */
    ghost predicate Passes(s: map<TreeNode, NodeStatus>, n: TreeNode)
      requires Valid()
      decreases height, 1
    {
      n in Nodes() && this in s && s[this] == RUNNING && (n == this || Reaches(s, n))
    }

    /** Links leave each node in the way its class allows, and the rest follows from that. */
    lemma Links(c: TreeNode)
      requires Valid() && (c in children || c == child)
      ensures c.Valid() && c.height < height && c.Nodes() <= below && this !in below
    {
    }

    lemma Lower()
      requires Valid()
      ensures forall n :: n in Nodes() ==> n.height <= height
    {
    }

    lemma AllBelow()
      requires Valid()
      ensures forall k, n :: 0 <= k < |children| && n in children[k].Nodes() ==> n in below && children[k].Valid()
    {
    }

    lemma Apart(i: nat)
      requires Valid() && i < |children|
      ensures forall k :: 0 <= k < |children| && k != i ==> children[k].Nodes() !! children[i].Nodes()
    {
    }

    lemma ChildWith(n: TreeNode) returns (k: nat)
      requires Valid() && kind == Control && n in below
      ensures k < |children| && n in children[k].Nodes()
    {
      k :| 0 <= k < |children| && n in children[k].Nodes();
    }

    /** Halting reaches a node through the one child whose subtree it is in. */
    lemma ReachedThrough(s: map<TreeNode, NodeStatus>, i: nat, n: TreeNode)
      requires Valid() && kind == Control && i < |children| && n in children[i].Nodes()
      ensures children[i].Valid() && (Reaches(s, n) <==> children[i].Passes(s, n))
    {
      hide Valid;
      Links(children[i]);
      Leaf();
      Apart(i);
    }

    lemma ReachedThroughChild(s: map<TreeNode, NodeStatus>, n: TreeNode)
      requires Valid() && kind == Decorator && n in below
      ensures child != null && n in child.Nodes() && child.Valid()
      ensures Reaches(s, n) <==> child.Passes(s, n)
    {
    }

    lemma ValidIntro()
      requires Linked() && (forall c :: c in children ==> c.Valid()) && (child != null ==> child.Valid())
      ensures Valid()
    {
    }

    lemma Leaf()
      requires Valid()
      ensures kind != Control ==> children == []
      ensures kind != Decorator ==> child == null
      ensures this !in below
      ensures forall n :: n in below ==> Covers(n)
    {
    }

    method ResetStatus()
      modifies this`status
      ensures status == IDLE
    {
      status := IDLE;
    }

    /** `halt`, dispatched on the class of the node. */
    method Halt(ghost s: map<TreeNode, NodeStatus>)
      requires Valid() && Shows(s)
      modifies Nodes()
      ensures status == old(status) && onHaltedCalls == old(onHaltedCalls) + Halts(kind, old(status))
      ensures forall n :: n in below ==>
                Halted(n.kind, Reaches(s, n), s[n], old(n.onHaltedCalls), n.status, n.onHaltedCalls)
      ensures forall c :: c in children ==> c.status == IDLE
      ensures child != null ==> child.status == IDLE
      decreases height, 2
    {
      hide Valid;
      Leaf();
      match kind {
        case StatefulAction =>
          haltRequested := true;
          if status == RUNNING {
            onHaltedCalls := onHaltedCalls + 1;
          }
        case OtherLeaf =>
        case Control =>
          ResetChildren(s);
        case Decorator =>
          ResetChild(s);
      }
    }

    method HaltNode(ghost s: map<TreeNode, NodeStatus>)
      requires Valid() && Shows(s)
      modifies Nodes()
      ensures status == old(status) && onHaltedCalls == old(onHaltedCalls) + Halts(kind, old(status))
      ensures forall n :: n in below ==>
                Halted(n.kind, Reaches(s, n), s[n], old(n.onHaltedCalls), n.status, n.onHaltedCalls)
      ensures forall c :: c in children ==> c.status == IDLE
      ensures child != null ==> child.status == IDLE
      decreases height, 3
    {
      hide Valid, Reaches;
      Halt(s);
    }

    /** One turn of the loops below: `if RUNNING then halt; resetStatus`. */
    method HaltAndReset(ghost s: map<TreeNode, NodeStatus>)
      requires Valid() && Shows(s)
      modifies Nodes()
      ensures forall n :: n in Nodes() ==>
                Halted(n.kind, Passes(s, n), s[n], old(n.onHaltedCalls), n.status, n.onHaltedCalls)
      ensures status == IDLE
      decreases height, 4
    {
      hide Valid;
      Leaf();
      if status == RUNNING {
        Halt(s);
      }
      ResetStatus();
    }

    /** `ControlNode::resetChildren`. */
    method ResetChildren(ghost s: map<TreeNode, NodeStatus>)
      requires Valid() && Shows(s) && kind == Control
      modifies below
      ensures forall n :: n in below ==>
                Halted(n.kind, Reaches(s, n), s[n], old(n.onHaltedCalls), n.status, n.onHaltedCalls)
      ensures forall c :: c in children ==> c.status == IDLE
      decreases height, 1
    {
      hide Valid, Passes, Reaches, Halted;
      AllBelow();
      var i := 0;
      while i < |children|
        invariant i <= |children|
        invariant forall k, n :: 0 <= k < i && n in children[k].Nodes() ==>
                    Halted(n.kind, children[k].Passes(s, n), s[n], old(n.onHaltedCalls), n.status, n.onHaltedCalls)
        invariant forall k, n :: i <= k < |children| && n in children[k].Nodes() ==>
                    n.status == old(n.status) && n.onHaltedCalls == old(n.onHaltedCalls)
        invariant forall k :: 0 <= k < i ==> children[k].status == IDLE
        modifies below
      {
        var c := children[i];
        Links(c);
        Apart(i);
        c.HaltAndReset(s);
        i := i + 1;
      }
      forall n | n in below
        ensures Halted(n.kind, Reaches(s, n), s[n], old(n.onHaltedCalls), n.status, n.onHaltedCalls)
      {
        var k := ChildWith(n);
        ReachedThrough(s, k, n);
      }
    }

    /** `DecoratorNode::resetChild`, which calls `haltNode` on the child. */
    method ResetChild(ghost s: map<TreeNode, NodeStatus>)
      requires Valid() && Shows(s) && kind == Decorator
      modifies below
      ensures forall n :: n in below ==>
                Halted(n.kind, Reaches(s, n), s[n], old(n.onHaltedCalls), n.status, n.onHaltedCalls)
      ensures child != null ==> child.status == IDLE
      decreases height, 1
    {
      hide Valid, Reaches;
      Leaf();
      if child == null { return; }
      Links(child);
      if child.status == RUNNING {
        child.HaltNode(s);
      }
      child.ResetStatus();
      forall n | n in below
        ensures Halted(n.kind, Reaches(s, n), s[n], old(n.onHaltedCalls), n.status, n.onHaltedCalls)
      {
        ReachedThroughChild(s, n);
      }
    }

    /** The visitor goes on to the children, which the visit of their parent has made IDLE. */
    method VisitChildren()
      requires Valid() && kind == Control && forall c :: c in children ==> c.status == IDLE
      modifies below
      ensures forall n :: n in below ==>
                n.status == IDLE && Settles(n.kind, old(n.status), old(n.onHaltedCalls), n.status, n.onHaltedCalls)
      decreases height, 0
    {
      hide Valid, Reaches;
      Leaf();
      for i := 0 to |children|
        invariant forall n :: n in below ==>
                    Settles(n.kind, old(n.status), old(n.onHaltedCalls), n.status, n.onHaltedCalls)
        invariant forall c :: c in children ==> c.status == IDLE
        invariant forall k, n :: 0 <= k < i && n in children[k].Nodes() ==> n.status == IDLE
      {
        Links(children[i]);
        children[i].VisitHalting();
      }
    }

    /** `applyRecursiveVisitor` with the visitor of `haltTree`. */
    method VisitHalting()
      requires Valid()
      modifies Nodes()
      ensures status == old(status) && onHaltedCalls == old(onHaltedCalls) + Halts(kind, old(status))
      ensures forall n :: n in below ==>
                && n.status == IDLE
                && n.onHaltedCalls == old(n.onHaltedCalls) + Halts(n.kind, old(n.status))
      decreases height, 1
    {
      hide Valid, Reaches;
      Leaf();
      HaltNode(map n | n in Nodes() :: n.status);
      if kind == Control {
        VisitChildren();
      } else if kind == Decorator {
        if child != null {
          Links(child);
          child.VisitHalting();
        }
      }
    }
  }

  /** `Tree::haltTree`.  All nodes end IDLE.  Every stateful action below the root that was RUNNING
      is halted once, and no other; a root that is one itself is halted twice.  `again` holds the
      calls of the second pass, which the source expects to do nothing: it halts exactly the RUNNING
      actions that the first pass did not reach through RUNNING ancestors. */
  method HaltWholeTree(root: TreeNode?) returns (ghost again: map<TreeNode, int>)
    requires root != null ==> root.Valid()
    modifies if root == null then {} else root.Nodes()
    ensures root != null ==> forall n :: n in root.Nodes() ==> n.status == IDLE
    ensures root != null ==> forall n :: n in root.Nodes() && n != root ==>
              n.onHaltedCalls == old(n.onHaltedCalls) + Halts(n.kind, old(n.status))
    ensures root != null ==>
              root.onHaltedCalls == old(root.onHaltedCalls) + 2 * Halts(root.kind, old(root.status))
    ensures root != null ==> forall n :: n in root.below ==> n in again
    ensures root != null ==> forall n :: n in root.below ==>
              again[n] == if root.Reaches(old(map m | m in root.Nodes() :: m.status), n) then 0
                          else Halts(n.kind, old(n.status))
  {
    hide TreeNode.Valid, TreeNode.Reaches;
    if root == null { return map[]; }
    root.Leaf();
    ghost var s := map n | n in root.Nodes() :: n.status;
    root.HaltNode(s);
    ghost var first := map n | n in root.Nodes() :: n.onHaltedCalls;
    root.VisitHalting();
    root.ResetStatus();
    again := map n | n in root.Nodes() :: n.onHaltedCalls - first[n];
  }
}
