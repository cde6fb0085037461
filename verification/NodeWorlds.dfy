/**
  The links of all nodes of a document as a value: every parent's doubly linked list of children is
  one sequence, and the parents form a forest.
*/
module NodeWorlds {
  import opened Wrappers
  import opened SiblingLists

  datatype Links<N> = Links(parent: Option<N>, first: Option<N>, last: Option<N>, prev: Option<N>, next: Option<N>,
                            kids: seq<N>)

  type World<N> = map<N, Links<N>>

  /** The node's list of children is its sequence of children. */
  ghost predicate ListOk<N>(w: World<N>, n: N)
    requires n in w
  {
    && w[n].first == First(w[n].kids) && w[n].last == Last(w[n].kids) && Distinct(w[n].kids)
    && forall k :: k in w[n].kids ==> k in w && w[k].parent == Some(n)
  }

  /** The node stands where its parent's sequence of children has it, and ranks above its parent. */
  ghost predicate PlaceOk<N>(w: World<N>, rank: map<N, nat>, n: N)
    requires n in w
  {
    n in rank &&
    match w[n].parent
    case None => w[n].prev == None && w[n].next == None
    case Some(p) =>
      && p in w && n in w[p].kids
      && w[n].prev == Before(w[p].kids, n) && w[n].next == After(w[p].kids, n)
      && p in rank && rank[p] < rank[n]
  }

  ghost predicate WellFormed<N>(w: World<N>, rank: map<N, nat>) {
    forall n :: n in w ==> ListOk(w, n) && PlaceOk(w, rank, n)
  }

  // ----- what unlinking and linking do to the links -----

  /** `c` has left its parent `p`. */
  ghost predicate UnlinkedNode<N>(w: World<N>, l: Links<N>, p: N, c: N, n: N)
    requires p in w && c in w && n in w
  {
    && l.parent == (if n == c then None else w[n].parent)
    && l.kids == (if n == p then Without(w[p].kids, c) else w[n].kids)
    && l.first == (if n == p && w[p].first == Some(c) then w[c].next else w[n].first)
    && l.last == (if n == p && w[p].last == Some(c) then w[c].prev else w[n].last)
    && l.next == (if n == c then None else if w[c].prev == Some(n) then w[c].next else w[n].next)
    && l.prev == (if n == c then None else if w[c].next == Some(n) then w[c].prev else w[n].prev)
  }

  ghost predicate Unlinked<N>(w: World<N>, w': World<N>, p: N, c: N) {
    p in w && c in w && w'.Keys == w.Keys && forall n :: n in w ==> UnlinkedNode(w, w'[n], p, c, n)
  }

  /** `c` has become the last child of `p`. */
  ghost predicate AppendedNode<N>(w: World<N>, l: Links<N>, p: N, c: N, n: N)
    requires p in w && c in w && n in w
  {
    && l.parent == (if n == c then Some(p) else w[n].parent)
    && l.kids == (if n == p then w[p].kids + [c] else w[n].kids)
    && l.first == (if n == p && w[p].first == None then Some(c) else w[n].first)
    && l.last == (if n == p then Some(c) else w[n].last)
    && l.next == (if n == c then None else if w[p].last == Some(n) then Some(c) else w[n].next)
    && l.prev == (if n == c then w[p].last else w[n].prev)
  }

  ghost predicate Appended<N>(w: World<N>, w': World<N>, p: N, c: N) {
    p in w && c in w && w'.Keys == w.Keys && forall n :: n in w ==> AppendedNode(w, w'[n], p, c, n)
  }

  /** `c` has become the first child of `p`. */
  ghost predicate PrependedNode<N>(w: World<N>, l: Links<N>, p: N, c: N, n: N)
    requires p in w && c in w && n in w
  {
    && l.parent == (if n == c then Some(p) else w[n].parent)
    && l.kids == (if n == p then [c] + w[p].kids else w[n].kids)
    && l.first == (if n == p then Some(c) else w[n].first)
    && l.last == (if n == p && w[p].last == None then Some(c) else w[n].last)
    && l.next == (if n == c then w[p].first else w[n].next)
    && l.prev == (if n == c then None else if w[p].first == Some(n) then Some(c) else w[n].prev)
  }

  ghost predicate Prepended<N>(w: World<N>, w': World<N>, p: N, c: N) {
    p in w && c in w && w'.Keys == w.Keys && forall n :: n in w ==> PrependedNode(w, w'[n], p, c, n)
  }

  /** `c` has become the child of `p` after its child `a`, which was not the last. */
  ghost predicate PutAfterNode<N>(w: World<N>, l: Links<N>, p: N, a: N, c: N, n: N)
    requires p in w && a in w && c in w && n in w
  {
    && l.parent == (if n == c then Some(p) else w[n].parent)
    && l.kids == (if n == p then WithAfter(w[p].kids, a, c) else w[n].kids)
    && l.first == w[n].first && l.last == w[n].last
    && l.next == (if n == c then w[a].next else if n == a then Some(c) else w[n].next)
    && l.prev == (if n == c then Some(a) else if w[a].next == Some(n) then Some(c) else w[n].prev)
  }

  ghost predicate PutAfter<N>(w: World<N>, w': World<N>, p: N, a: N, c: N) {
    p in w && a in w && c in w && w'.Keys == w.Keys && forall n :: n in w ==> PutAfterNode(w, w'[n], p, a, c, n)
  }

  // ----- unlinking -----

  lemma UnlinkKeepsList<N>(w: World<N>, w': World<N>, rank: map<N, nat>, p: N, c: N, n: N)
    requires WellFormed(w, rank) && c in w && w[c].parent == Some(p) && p in w && Unlinked(w, w', p, c) && n in w
    ensures ListOk(w', n)
  {
    assert ListOk(w, n) && PlaceOk(w, rank, c);
    if n == p {
      WithoutMembers(w[p].kids, c);
      WithoutFirst(w[p].kids, c);
      WithoutLast(None, w[p].kids, c);
      FirstHasNoBefore(w[p].kids, c);
      LastHasNoAfter(w[p].kids, c);
    }
  }

  lemma UnlinkKeepsPlace<N>(w: World<N>, w': World<N>, rank: map<N, nat>, p: N, c: N, n: N)
    requires WellFormed(w, rank) && c in w && w[c].parent == Some(p) && p in w && Unlinked(w, w', p, c) && n in w
    ensures PlaceOk(w', rank, n)
  {
    assert PlaceOk(w, rank, n) && PlaceOk(w, rank, c) && ListOk(w, p);
    AfterMember(w[p].kids, c);
    BeforeMember(None, w[p].kids, c);
    if n != c && w[n].parent == Some(p) {
      WithoutMembers(w[p].kids, c);
      WithoutAfter(w[p].kids, c, n);
      WithoutBefore(None, w[p].kids, c, n);
      AfterIsBefore(None, w[p].kids, c, n);
      AfterIsBefore(None, w[p].kids, n, c);
    }
  }

  lemma UnlinkKeeps<N>(w: World<N>, w': World<N>, rank: map<N, nat>, p: N, c: N)
    requires WellFormed(w, rank) && c in w && w[c].parent == Some(p) && p in w && Unlinked(w, w', p, c)
    ensures WellFormed(w', rank)
  {
    forall n | n in w'
      ensures ListOk(w', n) && PlaceOk(w', rank, n)
    {
      UnlinkKeepsList(w, w', rank, p, c, n);
      UnlinkKeepsPlace(w, w', rank, p, c, n);
    }
  }

  // ----- ranks -----

  /** `n` is `a` or inside it. */
  ghost predicate Below<N>(w: World<N>, rank: map<N, nat>, n: N, a: N)
    decreases if n in rank then rank[n] else 0
  {
    n in w && (n == a || (HasHigher(w, rank, n) && Below(w, rank, w[n].parent.value, a)))
  }

  /** The node has a parent of lower rank. */
  ghost predicate HasHigher<N>(w: World<N>, rank: map<N, nat>, n: N) {
    n in w && n in rank && w[n].parent.Some? && w[n].parent.value in rank && rank[w[n].parent.value] < rank[n]
  }

  /** `c` may become a child of `p` without making a cycle. */
  ghost predicate CanHold<N>(w: World<N>, rank: map<N, nat>, p: N, c: N) {
    WellFormed(w, rank) && p in w && c in w && !Below(w, rank, p, c)
  }

  lemma {:induction false} BelowRanks<N>(w: World<N>, rank: map<N, nat>, n: N, a: N)
    requires WellFormed(w, rank) && n in w && Below(w, rank, n, a)
    ensures a in w && a in rank && n in rank && rank[a] <= rank[n]
    decreases assert PlaceOk(w, rank, n); rank[n]
  {
    assert PlaceOk(w, rank, n);
    if n != a {
      assert PlaceOk(w, rank, w[n].parent.value);
      BelowRanks(w, rank, w[n].parent.value, a);
    }
  }

  /** The structure is a forest: no node is inside one of its own descendants. */
  lemma NoCycle<N>(w: World<N>, rank: map<N, nat>, n: N)
    requires WellFormed(w, rank) && n in w && w[n].parent.Some?
    ensures w[n].parent.value in w && !Below(w, rank, w[n].parent.value, n)
  {
    assert PlaceOk(w, rank, n);
    if Below(w, rank, w[n].parent.value, n) {
      BelowRanks(w, rank, w[n].parent.value, n);
    }
  }

  /** The ranks when `c` with all that is below it has come under `p`. */
  ghost function MovedRank<N>(w: World<N>, rank: map<N, nat>, c: N, p: N): map<N, nat> {
    map n | n in rank :: if p in rank && Below(w, rank, n, c) then rank[n] + rank[p] + 1 else rank[n]
  }

  /** With ranks `r`, node `n` ranks above its parent when `c` has come under `p`. */
  ghost predicate Rises<N>(w: World<N>, r: map<N, nat>, c: N, p: N, n: N)
    requires n in w
  {
    && n in r
    && (n == c ==> p in r && r[p] < r[n])
    && (n != c && w[n].parent.Some? ==> w[n].parent.value in r && r[w[n].parent.value] < r[n])
  }

  /** Wherever among the children of `p` it is put, `c` with new ranks keeps the forest. */
  lemma MovedRankRises<N>(w: World<N>, rank: map<N, nat>, c: N, p: N, n: N)
    requires WellFormed(w, rank) && c in w && p in w && p in rank && !Below(w, rank, p, c) && n in w
    ensures Rises(w, MovedRank(w, rank, c, p), c, p, n)
  {
  }

  // ----- moving -----

  /** `c` is nobody's child any more. */
  ghost predicate TakenOut<N>(w: World<N>, w': World<N>, c: N) {
    && w'.Keys == w.Keys
    && forall n :: n in w ==>
         && w'[n].parent == (if n == c then None else w[n].parent)
         && w'[n].kids == Without(w[n].kids, c)
  }

  /** `c` is the child of `p` and nobody else's; the children of `p` are now `kids`. */
  ghost predicate Moved<N>(w: World<N>, w': World<N>, p: N, c: N, kids: seq<N>) {
    && w'.Keys == w.Keys
    && forall n :: n in w ==>
         && w'[n].parent == (if n == c then Some(p) else w[n].parent)
         && w'[n].kids == (if n == p then kids else Without(w[n].kids, c))
  }

  lemma UnlinkedIsOut<N>(w: World<N>, w': World<N>, rank: map<N, nat>, p: N, c: N)
    requires WellFormed(w, rank) && c in w && w[c].parent == Some(p) && p in w && Unlinked(w, w', p, c)
    ensures TakenOut(w, w', c)
  {
    forall n | n in w
      ensures w'[n].parent == (if n == c then None else w[n].parent) && w'[n].kids == Without(w[n].kids, c)
    {
      assert UnlinkedNode(w, w'[n], p, c, n) && ListOk(w, n);
      if n != p {
        WithoutStranger(w[n].kids, c);
      }
    }
  }

  /** Where the node after `a` is found when `c` is out. */
  lemma NextWhenOut<N>(w: World<N>, w': World<N>, rank: map<N, nat>, p: N, a: N, c: N)
    requires WellFormed(w, rank) && WellFormed(w', rank) && TakenOut(w, w', c)
    requires a in w && c in w && a != c && w[a].parent == Some(p)
    ensures w'[a].parent == Some(p) && w'[a].next == if w[a].next == Some(c) then w[c].next else w[a].next
  {
    assert PlaceOk(w, rank, a) && PlaceOk(w, rank, c) && PlaceOk(w', rank, a) && ListOk(w, p);
    if c in w[p].kids {
      WithoutAfter(w[p].kids, c, a);
    } else {
      WithoutStranger(w[p].kids, c);
      AfterMember(w[p].kids, a);
    }
  }

  /** After the last child is at the end. */
  lemma AfterLastIsEnd<N>(w: World<N>, rank: map<N, nat>, p: N, a: N, c: N)
    requires WellFormed(w, rank) && a in w && c in w && a != c && w[a].parent == Some(p) && w[a].next == None
    ensures p in w && WithAfter(Without(w[p].kids, c), a, c) == Without(w[p].kids, c) + [c]
  {
    assert PlaceOk(w, rank, a) && ListOk(w, p);
    LastHasNoAfter(w[p].kids, a);
    WithoutMembers(w[p].kids, c);
    if c in w[p].kids {
      WithoutLast(None, w[p].kids, c);
    } else {
      WithoutStranger(w[p].kids, c);
    }
    WithAfterLast(Without(w[p].kids, c), a, c);
  }

  lemma RootIsOut<N>(w: World<N>, rank: map<N, nat>, c: N)
    requires WellFormed(w, rank) && c in w && w[c].parent == None
    ensures TakenOut(w, w, c)
  {
    forall n | n in w
      ensures w[n].kids == Without(w[n].kids, c)
    {
      assert ListOk(w, n);
      WithoutStranger(w[n].kids, c);
    }
  }

  /** Taking `c` out leaves inside it what was there. */
  lemma {:induction false} BelowWhenOut<N>(w: World<N>, w': World<N>, rank: map<N, nat>, c: N, n: N)
    requires WellFormed(w, rank) && WellFormed(w', rank) && TakenOut(w, w', c) && n in w
    ensures Below(w', rank, n, c) <==> Below(w, rank, n, c)
    decreases assert PlaceOk(w, rank, n); rank[n]
  {
    assert PlaceOk(w, rank, n);
    if n != c && w[n].parent.Some? {
      assert PlaceOk(w, rank, w[n].parent.value);
      BelowWhenOut(w, w', rank, c, w[n].parent.value);
    }
  }

  lemma HoldsWhenOut<N>(w: World<N>, w': World<N>, rank: map<N, nat>, p: N, c: N)
    requires CanHold(w, rank, p, c) && WellFormed(w', rank) && TakenOut(w, w', c)
    ensures CanHold(w', rank, p, c)
  {
    BelowWhenOut(w, w', rank, c, p);
  }

  /** `c` has `p` for its parent, and that is all that changed about parents. */
  ghost predicate Adopted<N>(w: World<N>, w': World<N>, p: N, c: N) {
    && w'.Keys == w.Keys
    && forall n :: n in w ==> w'[n].parent == (if n == c then Some(p) else w[n].parent)
  }

  lemma AppendedAdopts<N>(w: World<N>, w': World<N>, p: N, c: N)
    requires p in w && c in w && Appended(w, w', p, c)
    ensures Adopted(w, w', p, c)
  {
  }

  lemma PrependedAdopts<N>(w: World<N>, w': World<N>, p: N, c: N)
    requires p in w && c in w && Prepended(w, w', p, c)
    ensures Adopted(w, w', p, c)
  {
  }

  lemma PutAfterAdopts<N>(w: World<N>, w': World<N>, p: N, a: N, c: N)
    requires p in w && a in w && c in w && PutAfter(w, w', p, a, c)
    ensures Adopted(w, w', p, c)
  {
  }

  lemma OutThenAppended<N>(w: World<N>, w1: World<N>, w2: World<N>, p: N, c: N)
    requires p in w1 && c in w1 && TakenOut(w, w1, c) && Appended(w1, w2, p, c)
    ensures Moved(w, w2, p, c, Without(w[p].kids, c) + [c])
  {
  }

  lemma OutThenPrepended<N>(w: World<N>, w1: World<N>, w2: World<N>, p: N, c: N)
    requires p in w1 && c in w1 && TakenOut(w, w1, c) && Prepended(w1, w2, p, c)
    ensures Moved(w, w2, p, c, [c] + Without(w[p].kids, c))
  {
  }

  lemma OutThenPutAfter<N>(w: World<N>, w1: World<N>, w2: World<N>, p: N, a: N, c: N)
    requires p in w1 && a in w1 && c in w1 && TakenOut(w, w1, c) && PutAfter(w1, w2, p, a, c)
    ensures Moved(w, w2, p, c, WithAfter(Without(w[p].kids, c), a, c))
  {
  }

  // ----- deleting -----

  /** `c` with all that is inside it. */
  ghost function Subtree<N>(w: World<N>, rank: map<N, nat>, c: N): set<N> {
    set n | n in w && Below(w, rank, n, c)
  }

  /** Children of the nodes of `s` are in `s`. */
  ghost predicate ClosedBelow<N>(w: World<N>, s: set<N>) {
    forall n, k :: n in s && n in w && k in w[n].kids ==> k in s
  }

  lemma SubtreeClosed<N>(w: World<N>, rank: map<N, nat>, c: N)
    requires WellFormed(w, rank) && c in w
    ensures c in Subtree(w, rank, c) && ClosedBelow(w, Subtree(w, rank, c))
  {
  }

  /** A node without parent is not a child of what is left. */
  lemma ClosedWithout<N>(w: World<N>, rank: map<N, nat>, s: set<N>, c: N)
    requires WellFormed(w, rank) && ClosedBelow(w, s) && c in w && w[c].parent == None
    ensures ClosedBelow(w, s - {c})
    ensures c in s ==> forall k :: k in w[c].kids ==> k in s - {c}
  {
    forall n, k | n in s && n in w && k in w[n].kids
      ensures k != c
    {
      assert ListOk(w, n);
    }
  }

  /** Unlinking touches the parent, its children and nobody else. */
  lemma UnlinkTouches<N>(w: World<N>, l: Links<N>, rank: map<N, nat>, p: N, c: N, n: N)
    requires WellFormed(w, rank) && p in w && c in w && n in w && w[c].parent == Some(p) && UnlinkedNode(w, l, p, c, n)
    ensures n != p && n !in w[p].kids ==> l == w[n]
    ensures n != p ==> l.kids == w[n].kids
    ensures l.kids == Without(w[n].kids, c)
  {
    assert PlaceOk(w, rank, c) && ListOk(w, p) && ListOk(w, n);
    AfterMember(w[p].kids, c);
    BeforeMember(None, w[p].kids, c);
    if n != p {
      WithoutStranger(w[n].kids, c);
    }
  }

  lemma KidsWithout<N>(w: World<N>, rank: map<N, nat>, p: N, c: N)
    requires WellFormed(w, rank) && p in w
    ensures forall n :: n in Without(w[p].kids, c) <==> n in w[p].kids && n != c
  {
    assert ListOk(w, p);
    WithoutMembers(w[p].kids, c);
  }

  lemma ClosedAfter<N>(w: World<N>, w': World<N>, s: set<N>, p: N)
    requires ClosedBelow(w, s) && p !in s && w'.Keys <= w.Keys
    requires forall n :: n in w' && n != p ==> w'[n].kids == w[n].kids
    ensures ClosedBelow(w', s)
  {
  }

  /** What remains to be deleted when the first of the children is gone. */
  ghost predicate OneChildLess<N>(w: World<N>, w': World<N>, p: N, s: set<N>) {
    && p in w && p in w' && w'.Keys <= w.Keys
    && ClosedBelow(w', s)
    && (forall k :: k in w'[p].kids ==> k in w[p].kids)
    && (forall n :: n in w' && n != p && n !in w'[p].kids ==> n !in w[p].kids && w'[n] == w[n])
  }

  lemma ChildIsGone<N>(w: World<N>, w': World<N>, rank: map<N, nat>, p: N, c: N, s: set<N>)
    requires WellFormed(w, rank) && p in w && c in w && w[c].parent == Some(p) && ClosedBelow(w, s) && p !in s
    requires p in w' && w'.Keys <= w.Keys && c !in w' && forall n :: n in w' ==> UnlinkedNode(w, w'[n], p, c, n)
    ensures OneChildLess(w, w', p, s)
  {
    hide WellFormed, UnlinkedNode, Without;
    forall n | n in w'
      ensures n != p && n !in w[p].kids ==> w'[n] == w[n]
      ensures n != p ==> w'[n].kids == w[n].kids
    {
      UnlinkTouches(w, w'[n], rank, p, c, n);
    }
    UnlinkTouches(w, w'[p], rank, p, c, p);
    KidsWithout(w, rank, p, c);
    ClosedAfter(w, w', s, p);
  }

  /** Where the survivors kept their links, nothing inside a node that is gone survived. */
  lemma {:induction false} NothingBelowGone<N>(w: World<N>, w': World<N>, rank: map<N, nat>, rank': map<N, nat>, c: N,
                                               n: N)
    requires WellFormed(w, rank) && WellFormed(w', rank') && w'.Keys <= w.Keys && c !in w' && n in w
    requires forall x :: x in w' ==> w'[x].parent == w[x].parent
    requires Below(w, rank, n, c)
    ensures n !in w'
    decreases assert PlaceOk(w, rank, n); rank[n]
  {
    assert PlaceOk(w, rank, n);
    if n != c {
      assert PlaceOk(w, rank, w[n].parent.value);
      assert n in w' ==> PlaceOk(w', rank', n);
      NothingBelowGone(w, w', rank, rank', c, w[n].parent.value);
    }
  }

  /** `c` is gone, the others have kept their parents, and nobody has it for a child. */
  ghost predicate Gone<N>(w: World<N>, w': World<N>, c: N) {
    && w'.Keys <= w.Keys && c !in w'
    && forall n :: n in w' ==> w'[n].parent == w[n].parent && w'[n].kids == Without(w[n].kids, c)
  }

  lemma ChildGone<N>(w: World<N>, w': World<N>, rank: map<N, nat>, p: N, c: N)
    requires WellFormed(w, rank) && p in w && c in w && w[c].parent == Some(p) && w'.Keys <= w.Keys && c !in w'
    requires forall n :: n in w' ==> UnlinkedNode(w, w'[n], p, c, n)
    ensures Gone(w, w', c)
  {
    forall n | n in w'
      ensures w'[n].kids == Without(w[n].kids, c)
    {
      UnlinkTouches(w, w'[n], rank, p, c, n);
    }
  }

  lemma DetachedGone<N>(w: World<N>, w': World<N>, rank: map<N, nat>, c: N)
    requires WellFormed(w, rank) && c in w && w[c].parent == None && w'.Keys <= w.Keys && c !in w'
    requires forall n :: n in w' ==> w'[n] == w[n]
    ensures Gone(w, w', c)
  {
    RootIsOut(w, rank, c);
  }

  lemma GoneKids<N>(w: World<N>, w': World<N>, c: N, n: N)
    requires Gone(w, w', c) && n in w' && w[n].kids == []
    ensures w'[n].kids == []
  {
  }

  /** With a node all that is inside it is gone. */
  lemma GoneWithAll<N>(w: World<N>, w': World<N>, rank: map<N, nat>, c: N)
    requires WellFormed(w, rank) && WellFormed(w', rank) && Gone(w, w', c)
    ensures w'.Keys !! Subtree(w, rank, c)
  {
    forall n | n in Subtree(w, rank, c)
      ensures n !in w'
    {
      NothingBelowGone(w, w', rank, rank, c, n);
    }
  }

  /** A node without a parent is inside nothing but itself, and no node is inside its own child. */
  lemma SubtreeHasNot<N>(w: World<N>, rank: map<N, nat>, c: N, root: N)
    requires WellFormed(w, rank) && c in w && root in w && w[root].parent == None && root != c
    ensures root !in Subtree(w, rank, c)
    ensures w[c].parent.Some? ==> w[c].parent.value in w && w[c].parent.value !in Subtree(w, rank, c)
  {
    if w[c].parent.Some? {
      NoCycle(w, rank, c);
    }
  }

  lemma AllClosed<N>(w: World<N>, rank: map<N, nat>)
    requires WellFormed(w, rank)
    ensures ClosedBelow(w, w.Keys)
  {
  }

  /** A node that has neither parent nor children can be left out. */
  lemma DropKeeps<N>(w: World<N>, w': World<N>, rank: map<N, nat>, c: N)
    requires WellFormed(w, rank) && c in w && w[c].parent == None && w[c].kids == [] && w' == w - {c}
    ensures WellFormed(w', rank)
  {
    forall n | n in w'
      ensures ListOk(w', n) && PlaceOk(w', rank, n)
    {
      assert ListOk(w, n) && PlaceOk(w, rank, n);
    }
  }

  lemma AddKeeps<N>(w: World<N>, rank: map<N, nat>, c: N)
    requires WellFormed(w, rank) && c !in w
    ensures WellFormed(w[c := Links(None, None, None, None, None, [])], rank[c := 0])
  {
    var w', r := w[c := Links(None, None, None, None, None, [])], rank[c := 0];
    forall n | n in w'
      ensures ListOk(w', n) && PlaceOk(w', r, n)
    {
      if n != c {
        assert ListOk(w, n) && PlaceOk(w, rank, n);
      }
    }
  }

  /** Where every node but the root has a parent, the root has a child unless it is alone. */
  lemma {:induction false} RootHasChild<N>(w: World<N>, rank: map<N, nat>, root: N, n: N)
    requires WellFormed(w, rank) && n in w && n != root
    requires forall x :: x in w && x != root ==> w[x].parent.Some?
    ensures root in w && w[root].kids != []
    decreases assert PlaceOk(w, rank, n); rank[n]
  {
    assert PlaceOk(w, rank, n);
    if w[n].parent.value != root {
      assert PlaceOk(w, rank, w[n].parent.value);
      RootHasChild(w, rank, root, w[n].parent.value);
    }
  }

  // ----- linking -----

  /** What linking `c` under `p` needs to know about a node `n`. */
  ghost predicate Ready<N>(w: World<N>, rank: map<N, nat>, r: map<N, nat>, p: N, c: N, n: N)
    requires p in w && c in w && n in w
  {
    && ListOk(w, p) && w[c].parent == None && c !in w[p].kids
    && ListOk(w, n) && PlaceOk(w, rank, n) && (n != p ==> c !in w[n].kids)
    && Rises(w, r, c, p, n)
  }

  lemma IsReady<N>(w: World<N>, rank: map<N, nat>, p: N, c: N, n: N)
    requires WellFormed(w, rank) && c in w && p in w && p in rank && w[c].parent == None && !Below(w, rank, p, c)
    requires n in w
    ensures Ready(w, rank, MovedRank(w, rank, c, p), p, c, n)
  {
    MovedRankRises(w, rank, c, p, n);
    hide Below, MovedRank;
    assert ListOk(w, p) && ListOk(w, n);
  }

  lemma AppendKeepsNode<N>(w: World<N>, w': World<N>, rank: map<N, nat>, r: map<N, nat>, p: N, c: N, n: N)
    requires p in w && c in w && n in w && Ready(w, rank, r, p, c, n) && Appended(w, w', p, c)
    ensures ListOk(w', n) && PlaceOk(w', r, n)
  {
    hide Distinct, After, BeforeFrom;
    AppendedMembers(w[p].kids, c);
    AppendedBefore(None, w[p].kids, c);
  }

  lemma AppendKeeps<N>(w: World<N>, w': World<N>, rank: map<N, nat>, p: N, c: N)
    requires WellFormed(w, rank) && p in w && c in w && p in rank && w[c].parent == None && !Below(w, rank, p, c)
    requires Appended(w, w', p, c)
    ensures WellFormed(w', MovedRank(w, rank, c, p))
  {
    hide Below, MovedRank, ListOk, Ready, PlaceOk;
    forall n | n in w'
      ensures ListOk(w', n) && PlaceOk(w', MovedRank(w, rank, c, p), n)
    {
      IsReady(w, rank, p, c, n);
      AppendKeepsNode(w, w', rank, MovedRank(w, rank, c, p), p, c, n);
    }
  }

  lemma PrependKeepsList<N>(w: World<N>, w': World<N>, rank: map<N, nat>, r: map<N, nat>, p: N, c: N, n: N)
    requires p in w && c in w && n in w && Ready(w, rank, r, p, c, n) && Prepended(w, w', p, c)
    ensures ListOk(w', n)
  {
    hide Distinct, After, BeforeFrom, Rises, PlaceOk;
    PrependedMembers(w[p].kids, c);
  }

  lemma PrependKeepsPlace<N>(w: World<N>, w': World<N>, rank: map<N, nat>, r: map<N, nat>, p: N, c: N, n: N)
    requires p in w && c in w && n in w && Ready(w, rank, r, p, c, n) && Prepended(w, w', p, c)
    ensures PlaceOk(w', r, n)
  {
    hide Distinct, After, BeforeFrom;
    PrependedMembers(w[p].kids, c);
  }

  lemma PrependKeeps<N>(w: World<N>, w': World<N>, rank: map<N, nat>, p: N, c: N)
    requires WellFormed(w, rank) && p in w && c in w && p in rank && w[c].parent == None && !Below(w, rank, p, c)
    requires Prepended(w, w', p, c)
    ensures WellFormed(w', MovedRank(w, rank, c, p))
  {
    hide Below, MovedRank, ListOk, Ready, PlaceOk;
    forall n | n in w'
      ensures ListOk(w', n) && PlaceOk(w', MovedRank(w, rank, c, p), n)
    {
      IsReady(w, rank, p, c, n);
      PrependKeepsList(w, w', rank, MovedRank(w, rank, c, p), p, c, n);
      PrependKeepsPlace(w, w', rank, MovedRank(w, rank, c, p), p, c, n);
    }
  }

  lemma PutAfterKeepsNode<N>(w: World<N>, w': World<N>, rank: map<N, nat>, r: map<N, nat>, p: N, a: N, c: N, n: N)
    requires p in w && a in w && c in w && n in w && Ready(w, rank, r, p, c, n) && PutAfter(w, w', p, a, c)
    requires a in w[p].kids && w[a].next == After(w[p].kids, a) && w[a].next.Some?
    ensures ListOk(w', n) && PlaceOk(w', r, n)
  {
    hide Distinct, After, BeforeFrom, WithAfter;
    InsertedMembers(w[p].kids, a, c);
    InsertedLast(w[p].kids, a, c);
    AfterMember(w[p].kids, a);
    if w'[n].parent == Some(p) {
      InsertedAfter(w[p].kids, a, c, n);
      InsertedBefore(None, w[p].kids, a, c, n);
    }
  }

  lemma PutAfterKeeps<N>(w: World<N>, w': World<N>, rank: map<N, nat>, p: N, a: N, c: N)
    requires WellFormed(w, rank) && p in w && c in w && p in rank && w[c].parent == None && !Below(w, rank, p, c)
    requires a in w && w[a].parent == Some(p) && w[a].next.Some? && PutAfter(w, w', p, a, c)
    ensures WellFormed(w', MovedRank(w, rank, c, p))
  {
    hide Below, MovedRank, ListOk, Ready;
    assert PlaceOk(w, rank, a);
    forall n | n in w'
      ensures ListOk(w', n) && PlaceOk(w', MovedRank(w, rank, c, p), n)
    {
      IsReady(w, rank, p, c, n);
      PutAfterKeepsNode(w, w', rank, MovedRank(w, rank, c, p), p, a, c, n);
    }
  }
}
