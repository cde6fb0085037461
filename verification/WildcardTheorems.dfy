/**
  The raw matcher against the language of its pattern text.
*/
module WildcardTheorems {
  import opened Wrappers
  import Slices
  import opened WildcardScanners
  import opened WildcardMatcher
  import opened WildcardLanguage
  import opened WildcardExactness
  import opened WildcardOrder

  // ----- from raw text to trees -----

  /** The tree of the pattern text `p[lo..hi]`.  Brackets that open no set and parentheses that
      open no alternative are literals; a trailing escape card stands for nothing. */
  function Parse(p: string, lo: nat, hi: nat): Pattern
    requires lo <= hi <= |p|
    decreases hi - lo
  {
    if lo == hi then End
    else if p[lo] == ANYTHING then Cons(Anything, Parse(p, lo + 1, hi))
    else if p[lo] == SINGLE then Cons(One(Single), Parse(p, lo + 1, hi))
    else if p[lo] == ESCAPE then
      if lo + 1 == hi then End else Cons(One(Literal(p[lo + 1])), Parse(p, lo + 2, hi))
    else if p[lo] == SET_OPEN && IsSet(p, lo + 1, hi, NotOrFirst) then
      var end := SetEnd(p, lo + 1, hi, NotOrFirst).value;
      Cons(One(ClassOf(p[lo + 1..end - 1])), Parse(p, end, hi))
    else if p[lo] == ALT_OPEN && IsAlt(p, lo + 1, hi, AltNext, 1) then
      var end := AltEnd(p, lo + 1, hi, AltNext, 1).value;
      Cons(Choice(ParseBodies(p, lo + 1, end)), Parse(p, end, hi))
    else Cons(One(Literal(p[lo])), Parse(p, lo + 1, hi))
  }

  function ParseBodies(p: string, p1: nat, p2: nat): seq<Pattern>
    requires p1 <= p2 <= |p|
    decreases p2 - p1
  {
    match AltSubEnd(p, p1, p2, AltNext, 1)
    case None => []
    case Some(sub) => [Parse(p, p1, sub)] + if sub + 1 == p2 then [] else ParseBodies(p, sub + 1, p2)
  }

  function ClassOf(inside: string): Unit {
    if inside != "" && inside[0] == SET_NOT then Class(true, inside[1..]) else Class(false, inside)
  }

  function ParseAll(pattern: string): Pattern {
    Parse(pattern, 0, |pattern|)
  }

  // ----- sets -----

  /** The rest of a set decides membership by the characters before its closing card. */
  lemma {:induction false} MatchSetRest(text: string, k: nat, p: string, i: nat, hi: nat, end: nat)
    requires k < |text| && i <= hi <= |p| && SetEnd(p, i, hi, Next) == Some(end)
    ensures i < end
    ensures MatchSet(text, k, p, i, hi, NextIn).Done?
    ensures MatchSet(text, k, p, i, hi, NextIn).res <==> text[k] in p[i..end - 1]
    ensures MatchSet(text, k, p, i, hi, NextOut).Done?
    ensures MatchSet(text, k, p, i, hi, NextOut).res <==> text[k] !in p[i..end - 1]
    decreases hi - i
  {
    if p[i] != SET_CLOSE {
      MatchSetRest(text, k, p, i + 1, hi, end);
      Slices.HeadTail(p, i, end - 1);
    }
  }

  lemma MatchSetNegated(text: string, k: nat, p: string, i: nat, hi: nat, end: nat)
    requires k < |text| && i < hi <= |p| && p[i] == SET_NOT
    requires SetEnd(p, i, hi, NotOrFirst) == Some(end)
    ensures i + 2 < end
    ensures MatchSet(text, k, p, i, hi, NotOrFirstIn).Done?
    ensures MatchSet(text, k, p, i, hi, NotOrFirstIn).res <==> text[k] !in p[i + 1..end - 1]
  {
    assert SetEnd(p, i + 2, hi, Next) == Some(end);
    MatchSetRest(text, k, p, i + 2, hi, end);
    Slices.HeadTail(p, i + 1, end - 1);
    assert MatchSet(text, k, p, i, hi, NotOrFirstIn) == MatchSet(text, k, p, i + 1, hi, FirstOut);
  }

  lemma MatchSetPlain(text: string, k: nat, p: string, i: nat, hi: nat, end: nat)
    requires k < |text| && i < hi <= |p| && p[i] != SET_NOT
    requires SetEnd(p, i, hi, NotOrFirst) == Some(end)
    ensures i + 1 < end
    ensures MatchSet(text, k, p, i, hi, NotOrFirstIn).Done?
    ensures MatchSet(text, k, p, i, hi, NotOrFirstIn).res <==> text[k] in p[i..end - 1]
  {
    assert SetEnd(p, i + 1, hi, Next) == Some(end);
    MatchSetRest(text, k, p, i + 1, hi, end);
    Slices.HeadTail(p, i, end - 1);
  }

  /** A set card accepts exactly the items of the class it spells. */
  lemma MatchSetMeaning(text: string, k: nat, p: string, i: nat, hi: nat, end: nat)
    requires k <= |text| && i <= hi <= |p| && SetEnd(p, i, hi, NotOrFirst) == Some(end)
    ensures i < end && MatchSet(text, k, p, i, hi, NotOrFirstIn).Done?
    ensures MatchSet(text, k, p, i, hi, NotOrFirstIn).res <==>
              k < |text| && UnitMatches(ClassOf(p[i..end - 1]), text[k])
  {
    if k < |text| {
      if p[i] == SET_NOT {
        MatchSetNegated(text, k, p, i, hi, end);
        Slices.Drop(p, i, end - 1, 1);
      } else {
        MatchSetPlain(text, k, p, i, hi, end);
      }
    } else {
      NoItemNoMatch(text, p, i, hi);
    }
  }

  lemma NoItemNoMatch(text: string, p: string, i: nat, hi: nat)
    requires i <= hi <= |p| && IsSet(p, i, hi, NotOrFirst)
    ensures MatchSet(text, |text|, p, i, hi, NotOrFirstIn).Done?
    ensures !MatchSet(text, |text|, p, i, hi, NotOrFirstIn).res
  {
  }

  // ----- the raw matcher refines the tree matcher -----

  /** What a finished run of the raw matcher has to report for the tree matcher's answer. */
  predicate Agrees(raw: Outcome, tree: Option<nat>) {
    raw.Done? && (raw.res <==> tree.Some?) && (raw.res ==> raw.s == tree.value)
  }

  /** No scan throws inside `match`, and the answer and the consumed text are the tree's. */
  lemma {:induction false} MatchRefines(text: string, k: nat, p: string, lo: nat, hi: nat, partial: bool)
    requires k <= |text| && lo <= hi <= |p|
    ensures Agrees(Match(text, k, p, lo, hi, partial, false), MatchTree(text, k, Parse(p, lo, hi), partial))
    decreases hi - lo, |text| - k, 1
  {
    hide Match, MatchTree, Parse, Agrees, IsSet, IsAlt;
    if lo == hi {
      MatchEndRefines(text, k, p, lo, partial);
    } else if p[lo] == ANYTHING {
      MatchAnythingRefines(text, k, p, lo, hi, partial);
    } else if p[lo] == SET_OPEN && IsSet(p, lo + 1, hi, NotOrFirst) {
      MatchSetRefines(text, k, p, lo, hi, partial);
    } else if p[lo] == ALT_OPEN && IsAlt(p, lo + 1, hi, AltNext, 1) {
      MatchChoiceRefines(text, k, p, lo, hi, partial);
    } else {
      MatchUnitRefines(text, k, p, lo, hi, partial);
    }
  }

  lemma MatchEndRefines(text: string, k: nat, p: string, lo: nat, partial: bool)
    requires k <= |text| && lo <= |p|
    ensures Agrees(Match(text, k, p, lo, lo, partial, false), MatchTree(text, k, Parse(p, lo, lo), partial))
  {
  }

  lemma {:induction false} MatchAnythingRefines(text: string, k: nat, p: string, lo: nat, hi: nat, partial: bool)
    requires k <= |text| && lo < hi <= |p| && p[lo] == ANYTHING
    ensures Agrees(Match(text, k, p, lo, hi, partial, false), MatchTree(text, k, Parse(p, lo, hi), partial))
    decreases hi - lo, |text| - k, 0
  {
    MatchRefines(text, k, p, lo + 1, hi, partial);
    if k < |text| {
      MatchRefines(text, k + 1, p, lo, hi, partial);
    }
  }

  lemma {:induction false} MatchChoiceRefines(text: string, k: nat, p: string, lo: nat, hi: nat, partial: bool)
    requires k <= |text| && lo < hi <= |p| && p[lo] == ALT_OPEN && IsAlt(p, lo + 1, hi, AltNext, 1)
    ensures Agrees(Match(text, k, p, lo, hi, partial, false), MatchTree(text, k, Parse(p, lo, hi), partial))
    decreases hi - lo, |text| - k, 0
  {
    var end := AltEnd(p, lo + 1, hi, AltNext, 1).value;
    SubEndInsideAlt(p, lo + 1, hi, AltNext, 1, end);
    MatchAltRefines(text, k, p, lo + 1, end, hi, partial, Parse(p, lo, hi), 0);
    assert MatchTree(text, k, Parse(p, lo, hi), partial) == MatchBodies(text, k, Parse(p, lo, hi), 0, partial);
  }

  lemma {:induction false} MatchSetRefines(text: string, k: nat, p: string, lo: nat, hi: nat, partial: bool)
    requires k <= |text| && lo < hi <= |p|
    requires p[lo] == SET_OPEN && IsSet(p, lo + 1, hi, NotOrFirst)
    ensures Agrees(Match(text, k, p, lo, hi, partial, false), MatchTree(text, k, Parse(p, lo, hi), partial))
    decreases hi - lo, |text| - k, 0
  {
    var end := SetEnd(p, lo + 1, hi, NotOrFirst).value;
    MatchSetMeaning(text, k, p, lo + 1, hi, end);
    if k < |text| {
      MatchRefines(text, k + 1, p, end, hi, partial);
    }
    var unit := ClassOf(p[lo + 1..end - 1]);
    assert Parse(p, lo, hi) == Cons(One(unit), Parse(p, end, hi));
  }

  lemma {:induction false} MatchUnitRefines(text: string, k: nat, p: string, lo: nat, hi: nat, partial: bool)
    requires k <= |text| && lo < hi <= |p|
    requires p[lo] != ANYTHING && !(p[lo] == SET_OPEN && IsSet(p, lo + 1, hi, NotOrFirst))
    requires !(p[lo] == ALT_OPEN && IsAlt(p, lo + 1, hi, AltNext, 1))
    ensures Agrees(Match(text, k, p, lo, hi, partial, false), MatchTree(text, k, Parse(p, lo, hi), partial))
    decreases hi - lo, |text| - k, 0
  {
    var next := if p[lo] == ESCAPE && lo + 1 < hi then lo + 2 else lo + 1;
    if k < |text| {
      MatchRefines(text, k + 1, p, next, hi, partial);
    }
  }

  lemma {:induction false} MatchAltRefines(text: string, k: nat, p: string, p1: nat, p2: nat, p2end: nat,
                                           partial: bool, pat: Pattern, j: nat)
    requires k <= |text| && p1 <= p2 <= p2end <= |p|
    requires AltEnd(p, p1, p2end, AltNext, 1) == Some(p2)
    requires pat.Cons? && pat.head.Choice? && pat.tail == Parse(p, p2, p2end)
    requires j <= |pat.head.bodies| && pat.head.bodies[j..] == ParseBodies(p, p1, p2)
    ensures AltSubEnd(p, p1, p2, AltNext, 1).Some?
    ensures Agrees(MatchAlt(text, k, p, p1, AltSubEnd(p, p1, p2, AltNext, 1).value, p2, p2end, partial),
                   MatchBodies(text, k, pat, j, partial))
    decreases p2end - p1, |text| - k, 0
  {
    hide AltEnd, AltSubEnd, IsAlt, SetEnd, IsSet, Match, MatchAlt, MatchTree, MatchBodies, Parse, ParseBodies;
    SubEndInsideAlt(p, p1, p2end, AltNext, 1, p2);
    var sub := AltSubEnd(p, p1, p2, AltNext, 1).value;
    var bodies := pat.head.bodies;
    BodiesFrom(p, p1, p2, sub, bodies, j);
    MatchRefines(text, k, p, p1, sub, true);
    var first := MatchTree(text, k, bodies[j], true);
    if first.Some? {
      MatchRefines(text, first.value, p, p2, p2end, partial);
    }
    if sub + 1 < p2 {
      MatchAltRefines(text, k, p, sub + 1, p2, p2end, partial, pat, j + 1);
    }
    MatchAltStep(text, k, p, p1, sub, p2, p2end, partial, pat, j);
  }

  lemma BodiesFrom(p: string, p1: nat, p2: nat, sub: nat, bodies: seq<Pattern>, j: nat)
    requires p1 <= sub < p2 <= |p| && AltSubEnd(p, p1, p2, AltNext, 1) == Some(sub)
    requires j <= |bodies| && bodies[j..] == ParseBodies(p, p1, p2)
    ensures j < |bodies| && bodies[j] == Parse(p, p1, sub)
    ensures if sub + 1 == p2 then j + 1 == |bodies| else bodies[j + 1..] == ParseBodies(p, sub + 1, p2)
  {
    hide AltEnd, AltSubEnd, IsAlt, SetEnd, IsSet, Parse;
    assert bodies[j] == bodies[j..][0];
    Slices.DropRest(bodies, j, 1);
  }

  lemma MatchAltStep(text: string, k: nat, p: string, p1: nat, sub: nat, p2: nat, p2end: nat,
                     partial: bool, pat: Pattern, j: nat)
    requires k <= |text| && p1 <= sub < p2 <= p2end <= |p|
    requires pat.Cons? && pat.head.Choice? && j < |pat.head.bodies|
    requires Agrees(Match(text, k, p, p1, sub, true, false), MatchTree(text, k, pat.head.bodies[j], true))
    requires var first := MatchTree(text, k, pat.head.bodies[j], true);
             first.Some? ==>
               Agrees(Match(text, first.value, p, p2, p2end, partial, false),
                      MatchTree(text, first.value, pat.tail, partial))
    requires if sub + 1 == p2 then j + 1 == |pat.head.bodies|
             else var next := AltSubEnd(p, sub + 1, p2, AltNext, 1);
                  next.Some? &&
                  Agrees(MatchAlt(text, k, p, sub + 1, next.value, p2, p2end, partial),
                         MatchBodies(text, k, pat, j + 1, partial))
    ensures Agrees(MatchAlt(text, k, p, p1, sub, p2, p2end, partial), MatchBodies(text, k, pat, j, partial))
  {
  }

  // ----- the results for `wildcards::match` -----

  /** Matching always finishes without an exception, and only on texts of the language. */
  lemma MatchesSound(text: string, pattern: string)
    ensures Matches(text, pattern).Done?
    ensures Matches(text, pattern).res ==>
              Matches(text, pattern).s == |text| && Lang(ParseAll(pattern), text)
  {
    MatchRefines(text, 0, pattern, 0, |pattern|, false);
    if Matches(text, pattern).res {
      MatchTreeSound(text, 0, ParseAll(pattern), false);
      assert text[0..|text|] == text;
    }
  }

  /** Which texts are accepted, for every pattern. */
  lemma MatchesOrdered(text: string, pattern: string)
    ensures Matches(text, pattern).Done?
    ensures Matches(text, pattern).res <==> Accepts(ParseAll(pattern), text, 0)
  {
    MatchRefines(text, 0, pattern, 0, |pattern|, false);
    AcceptsExactly(text, 0, ParseAll(pattern));
  }

  /** Which texts are accepted, for patterns whose alternatives are simple. */
  lemma MatchesExact(text: string, pattern: string)
    requires SimpleBodies(ParseAll(pattern))
    ensures Matches(text, pattern).Done?
    ensures Matches(text, pattern).res <==> CommittedLang(ParseAll(pattern), text)
  {
    MatchRefines(text, 0, pattern, 0, |pattern|, false);
    MatchTreeExact(text, 0, ParseAll(pattern));
    assert text[0..] == text;
  }

  /** The matcher decides the language when every alternative body has a fixed width. */
  lemma MatchesComplete(text: string, pattern: string)
    requires FixedBodies(ParseAll(pattern))
    ensures Matches(text, pattern).Done?
    ensures Matches(text, pattern).res <==> Lang(ParseAll(pattern), text)
  {
    FixedBodiesAreSimple(ParseAll(pattern));
    MatchesExact(text, pattern);
    FixedBodiesLoseNothing(ParseAll(pattern), text);
  }

  /** A body with `*` commits too early: `(*)c` rejects "ac", a text of its language. */
  lemma StarInBodyLosesText()
    ensures var pat := Cons(Choice([Cons(Anything, End)]), Cons(One(Literal('c')), End));
            && ParseAll("(*)c") == pat
            && Lang(pat, "ac")
            && Matches("ac", "(*)c").Done? && !Matches("ac", "(*)c").res
  {
    var p, text := "(*)c", "ac";
    var star := Cons(Anything, End);
    var c := Cons(One(Literal('c')), End);
    var pat := Cons(Choice([star]), c);
    assert AltEnd(p, 1, 4, AltNext, 1) == Some(3);
    assert AltSubEnd(p, 1, 3, AltNext, 1) == Some(2);
    assert Parse(p, 1, 2) == star;
    assert ParseBodies(p, 1, 3) == [star];
    assert Parse(p, 3, 4) == c;
    assert ParseAll(p) == pat;
    assert Lang(star, text[..1]) by { assert text[..1][1..] == []; }
    assert Lang(c, text[1..]);
    MatchRefines(text, 0, p, 0, 4, false);
    assert MatchTree(text, 0, star, true) == Some(0);
    assert MatchTree(text, 0, c, false) == None;
    assert MatchBodies(text, 0, pat, 1, false) == None;
    assert MatchBodies(text, 0, pat, 0, false) == None;
  }
}
