/**
  What every pattern accepts, whatever its alternatives hold: a body of an alternative stands for one
  prefix, the first in the order in which choices are tried.
*/
module WildcardOrder {
  import opened Wrappers
  import opened WildcardLanguage
  import opened WildcardExactness

  /** From `k` on, the first prefix of the text that the pattern takes ends at `e`: `*` takes the fewest
      characters after which the rest of the pattern takes anything, and of the bodies of an alternative
      the first one counts after which it does. */
  ghost predicate First(pat: Pattern, text: string, k: nat, e: nat)
    decreases pat, 2
  {
    k <= e <= |text| &&
    match pat
    case End => e == k
    case Cons(Anything, tail) =>
      exists m: nat :: k <= m <= e && First(tail, text, m, e) && forall i: nat :: k <= i < m ==> !Takes(tail, text, i)
    case Cons(Choice(bodies), _) =>
      exists j: nat :: j < |bodies| && Follows(pat, j, text, k, e) &&
                       forall i: nat :: i < j ==> !FollowsAny(pat, i, text, k)
    case Cons(One(unit), tail) => k < e && UnitMatches(unit, text[k]) && First(tail, text, k + 1, e)
  }

  ghost predicate Takes(pat: Pattern, text: string, k: nat)
    decreases pat, 3
  {
    exists e: nat :: First(pat, text, k, e)
  }

  /** Body `j` takes its first prefix, and the rest of the pattern its own after that. */
  ghost predicate Follows(pat: Pattern, j: nat, text: string, k: nat, e: nat)
    requires pat.Cons? && pat.head.Choice? && j < |pat.head.bodies|
    decreases pat, 0
  {
    exists m: nat :: First(pat.head.bodies[j], text, k, m) && First(pat.tail, text, m, e)
  }

  ghost predicate FollowsAny(pat: Pattern, j: nat, text: string, k: nat)
    requires pat.Cons? && pat.head.Choice? && j < |pat.head.bodies|
    decreases pat, 1
  {
    exists e: nat :: Follows(pat, j, text, k, e)
  }

  /** The whole text from `k` on is accepted. */
  ghost predicate Accepts(pat: Pattern, text: string, k: nat)
    decreases pat
  {
    k <= |text| &&
    match pat
    case End => k == |text|
    case Cons(Anything, tail) => exists m: nat :: k <= m <= |text| && Accepts(tail, text, m)
    case Cons(Choice(bodies), tail) =>
      exists j: nat, m: nat :: j < |bodies| && First(bodies[j], text, k, m) && Accepts(tail, text, m)
    case Cons(One(unit), tail) => k < |text| && UnitMatches(unit, text[k]) && Accepts(tail, text, k + 1)
  }

  // ----- the definition, case by case -----

  lemma FirstInside(pat: Pattern, text: string, k: nat, e: nat)
    requires First(pat, text, k, e)
    ensures k <= e <= |text|
  {
  }

  lemma AnythingTakes(text: string, k: nat, tail: Pattern, e: nat) returns (m: nat)
    requires First(Cons(Anything, tail), text, k, e)
    ensures k <= m <= e <= |text| && First(tail, text, m, e)
    ensures forall i: nat :: k <= i < m ==> !Takes(tail, text, i)
  {
    m :| k <= m <= e && First(tail, text, m, e) && forall i: nat :: k <= i < m ==> !Takes(tail, text, i);
  }

  lemma AnythingGiven(text: string, k: nat, tail: Pattern, m: nat, e: nat)
    requires k <= m <= e <= |text| && First(tail, text, m, e) && forall i: nat :: k <= i < m ==> !Takes(tail, text, i)
    ensures First(Cons(Anything, tail), text, k, e)
  {
  }

  lemma Given(pat: Pattern, text: string, k: nat, e: nat)
    requires First(pat, text, k, e)
    ensures Takes(pat, text, k)
  {
  }

  lemma Taken(pat: Pattern, text: string, k: nat) returns (e: nat)
    requires Takes(pat, text, k)
    ensures First(pat, text, k, e)
  {
    e :| First(pat, text, k, e);
  }

  // ----- the tree matcher in partial mode finds the first prefix -----

  /** The matcher's result is the first prefix. */
  ghost predicate Finds(text: string, k: nat, pat: Pattern)
    requires k <= |text|
  {
    forall e: nat :: First(pat, text, k, e) <==> MatchTree(text, k, pat, true) == Some(e)
  }

  lemma {:induction false} FirstFound(text: string, k: nat, pat: Pattern)
    requires k <= |text|
    ensures Finds(text, k, pat)
    decreases pat, |text| - k
  {
    match pat
    case End =>
    case Cons(Anything, tail) =>
      FirstFound(text, k, tail);
      if k < |text| {
        FirstFound(text, k + 1, pat);
      }
      AnythingFound(text, k, tail);
    case Cons(Choice(bodies), tail) =>
      forall j | 0 <= j < |bodies|
        ensures Finds(text, k, bodies[j])
      {
        FirstFound(text, k, bodies[j]);
      }
      forall m: nat | m <= |text|
        ensures Finds(text, m, tail)
      {
        FirstFound(text, m, tail);
      }
      BodiesFound(text, k, pat, 0);
      forall e: nat
        ensures First(pat, text, k, e) <==> MatchTree(text, k, pat, true) == Some(e)
      {
        ChoiceFirst(text, k, pat, e);
      }
    case Cons(One(_), tail) =>
      if k < |text| {
        FirstFound(text, k + 1, tail);
      }
  }

  /** `*` takes nothing if the rest takes something, and otherwise one character more. */
  lemma AnythingFound(text: string, k: nat, tail: Pattern)
    requires k <= |text| && Finds(text, k, tail)
    requires k < |text| ==> Finds(text, k + 1, Cons(Anything, tail))
    ensures Finds(text, k, Cons(Anything, tail))
  {
    var pat := Cons(Anything, tail);
    var r := MatchTree(text, k, tail, true);
    hide First, Takes;
    forall e: nat
      ensures First(pat, text, k, e) <==> MatchTree(text, k, pat, true) == Some(e)
    {
      if First(pat, text, k, e) {
        var m := AnythingTakes(text, k, tail, e);
        if m > k {
          AnythingGiven(text, k + 1, tail, m, e);
          if r.Some? {
            Given(tail, text, k, r.value);
          }
        }
      }
      if r == Some(e) {
        AnythingGiven(text, k, tail, k, e);
      }
      if r == None && k < |text| && First(pat, text, k + 1, e) {
        var m := AnythingTakes(text, k + 1, tail, e);
        if Takes(tail, text, k) {
          var x := Taken(tail, text, k);
        }
        AnythingGiven(text, k, tail, m, e);
      }
    }
  }

  /** The first body from `j` on after which the rest takes anything. */
  ghost predicate FollowsFrom(pat: Pattern, j: nat, text: string, k: nat, e: nat)
    requires pat.Cons? && pat.head.Choice?
  {
    exists i: nat :: j <= i < |pat.head.bodies| && Follows(pat, i, text, k, e) &&
                     forall h: nat :: j <= h < i ==> !FollowsAny(pat, h, text, k)
  }

  lemma ChoiceFirst(text: string, k: nat, pat: Pattern, e: nat)
    requires k <= |text| && pat.Cons? && pat.head.Choice?
    ensures First(pat, text, k, e) <==> k <= e <= |text| && FollowsFrom(pat, 0, text, k, e)
  {
  }

  /** What one body and the rest after it take, by the matcher. */
  function BodyThenTail(text: string, k: nat, pat: Pattern, j: nat): Option<nat>
    requires k <= |text| && pat.Cons? && pat.head.Choice? && j < |pat.head.bodies|
  {
    var first := MatchTree(text, k, pat.head.bodies[j], true);
    if first.Some? then MatchTree(text, first.value, pat.tail, true) else None
  }

  lemma BodyFound(text: string, k: nat, pat: Pattern, j: nat)
    requires k <= |text| && pat.Cons? && pat.head.Choice? && j < |pat.head.bodies|
    requires Finds(text, k, pat.head.bodies[j]) && forall m: nat :: m <= |text| ==> Finds(text, m, pat.tail)
    ensures forall e: nat :: Follows(pat, j, text, k, e) <==> BodyThenTail(text, k, pat, j) == Some(e)
    ensures FollowsAny(pat, j, text, k) <==> BodyThenTail(text, k, pat, j).Some?
  {
    hide First, MatchTree;
    var first := MatchTree(text, k, pat.head.bodies[j], true);
    if first.Some? {
      assert First(pat.head.bodies[j], text, k, first.value) && Finds(text, first.value, pat.tail);
    }
    AnyFollows(text, k, pat, j, BodyThenTail(text, k, pat, j));
  }

  lemma AnyFollows(text: string, k: nat, pat: Pattern, j: nat, r: Option<nat>)
    requires pat.Cons? && pat.head.Choice? && j < |pat.head.bodies|
    requires forall e: nat :: Follows(pat, j, text, k, e) <==> r == Some(e)
    ensures FollowsAny(pat, j, text, k) <==> r.Some?
  {
  }

  lemma {:induction false} BodiesFound(text: string, k: nat, pat: Pattern, j: nat)
    requires k <= |text| && pat.Cons? && pat.head.Choice? && j <= |pat.head.bodies|
    requires forall i: nat :: i < |pat.head.bodies| ==> Finds(text, k, pat.head.bodies[i])
    requires forall m: nat :: m <= |text| ==> Finds(text, m, pat.tail)
    ensures forall e: nat :: FollowsFrom(pat, j, text, k, e) <==> MatchBodies(text, k, pat, j, true) == Some(e)
    decreases |pat.head.bodies| - j
  {
    hide Follows, FollowsAny, First, MatchTree, Finds;
    if j < |pat.head.bodies| {
      BodyFound(text, k, pat, j);
      BodiesFound(text, k, pat, j + 1);
      forall e: nat
        ensures FollowsFrom(pat, j, text, k, e) <==> MatchBodies(text, k, pat, j, true) == Some(e)
      {
        FromOneLess(text, k, pat, j, e);
      }
    }
  }

  lemma FromOneLess(text: string, k: nat, pat: Pattern, j: nat, e: nat)
    requires k <= |text| && pat.Cons? && pat.head.Choice? && j < |pat.head.bodies|
    requires Follows(pat, j, text, k, e) ==> FollowsAny(pat, j, text, k)
    ensures FollowsFrom(pat, j, text, k, e) <==>
            Follows(pat, j, text, k, e) || (!FollowsAny(pat, j, text, k) && FollowsFrom(pat, j + 1, text, k, e))
  {
  }

  // ----- whole patterns -----

  /** A whole match succeeds exactly on what the ordered meaning accepts, for every pattern. */
  lemma {:induction false} AcceptsExactly(text: string, k: nat, pat: Pattern)
    requires k <= |text|
    ensures MatchTree(text, k, pat, false).Some? <==> Accepts(pat, text, k)
    decreases pat, |text| - k, 1
  {
    match pat
    case End =>
    case Cons(Anything, tail) =>
      AcceptsExactly(text, k, tail);
      if k < |text| {
        AcceptsExactly(text, k + 1, pat);
      }
      AnythingAccepts(text, k, tail);
    case Cons(Choice(_), _) =>
      BodiesAccept(text, k, pat, 0);
      ChoiceAccepts(text, k, pat);
    case Cons(One(_), tail) =>
      if k < |text| {
        AcceptsExactly(text, k + 1, tail);
      }
  }

  lemma AnythingAccepts(text: string, k: nat, tail: Pattern)
    requires k <= |text|
    ensures Accepts(Cons(Anything, tail), text, k) <==>
            Accepts(tail, text, k) || (k < |text| && Accepts(Cons(Anything, tail), text, k + 1))
  {
  }

  ghost predicate AcceptsFrom(pat: Pattern, j: nat, text: string, k: nat)
    requires pat.Cons? && pat.head.Choice?
  {
    exists i: nat, m: nat :: j <= i < |pat.head.bodies| &&
                             First(pat.head.bodies[i], text, k, m) && Accepts(pat.tail, text, m)
  }

  lemma ChoiceAccepts(text: string, k: nat, pat: Pattern)
    requires k <= |text| && pat.Cons? && pat.head.Choice?
    ensures Accepts(pat, text, k) <==> AcceptsFrom(pat, 0, text, k)
  {
  }

  lemma {:induction false} BodiesAccept(text: string, k: nat, pat: Pattern, j: nat)
    requires k <= |text| && pat.Cons? && pat.head.Choice? && j <= |pat.head.bodies|
    ensures MatchBodies(text, k, pat, j, false).Some? <==> AcceptsFrom(pat, j, text, k)
    decreases pat, |text| - k, 0, |pat.head.bodies| - j
  {
    if j < |pat.head.bodies| {
      BodiesAccept(text, k, pat, j + 1);
      FirstFound(text, k, pat.head.bodies[j]);
      var first := MatchTree(text, k, pat.head.bodies[j], true);
      if first.Some? {
        AcceptsExactly(text, first.value, pat.tail);
        assert First(pat.head.bodies[j], text, k, first.value);
      }
    }
  }

  // ----- how the ordered meaning relates to the language -----

  /** There is one first prefix at most, and it is a word of the pattern. */
  lemma FirstIsWord(text: string, k: nat, pat: Pattern, e: nat, e': nat)
    requires First(pat, text, k, e)
    ensures k <= e <= |text| && Lang(pat, text[k..e])
    ensures First(pat, text, k, e') ==> e' == e
  {
    FirstInside(pat, text, k, e);
    FirstFound(text, k, pat);
    MatchTreeSound(text, k, pat, true);
  }

  /** In bodies without alternatives and in those of fixed width the first prefix is the least word. */
  lemma FirstIsMinimal(text: string, k: nat, body: Pattern, e: nat)
    requires k <= e <= |text| && (Flat(body) || Width(body).Some?)
    ensures First(body, text, k, e) <==> Minimal(body, text[k..e])
  {
    FirstFound(text, k, body);
    BodyIsMinimal(text, k, body, e);
  }

  /** With such bodies only, the ordered meaning is the committed language. */
  lemma AcceptsIsCommitted(text: string, k: nat, pat: Pattern)
    requires k <= |text| && SimpleBodies(pat)
    ensures Accepts(pat, text, k) <==> CommittedLang(pat, text[k..])
  {
    AcceptsExactly(text, k, pat);
    MatchTreeExact(text, k, pat);
  }
}
