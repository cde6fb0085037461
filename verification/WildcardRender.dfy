/**
  Every pattern tree can be written as pattern text, and the scanners, which see the text only,
  find the boundaries of all its sets and (nested) alternatives again.
*/
module WildcardRender {
  import opened Wrappers
  import opened Slices
  import opened WildcardScanners
  import opened WildcardMatcher
  import opened WildcardLanguage
  import opened WildcardExactness
  import opened WildcardTheorems

  predicate IsCard(c: char) {
    c == ANYTHING || c == SINGLE || c == ESCAPE || c == SET_OPEN ||
    c == ALT_OPEN || c == ALT_CLOSE || c == ALT_OR
  }

  /** Trees that pattern text can spell: a set has a first member, which alone may be the
      closing card, and a plain set does not start with the negation card. */
  predicate Spellable(pat: Pattern)
    decreases pat
  {
    match pat
    case End => true
    case Cons(Anything, tail) => Spellable(tail)
    case Cons(One(unit), tail) =>
      && (unit.Class? ==>
            && unit.members != ""
            && SET_CLOSE !in unit.members[1..]
            && (unit.negated || unit.members[0] != SET_NOT))
      && Spellable(tail)
    case Cons(Choice(bodies), tail) =>
      bodies != [] && (forall j :: 0 <= j < |bodies| ==> Spellable(bodies[j])) && Spellable(tail)
  }

  function RenderUnit(unit: Unit): string {
    match unit
    case Single => [SINGLE]
    case Literal(c) => if IsCard(c) then [ESCAPE, c] else [c]
    case Class(negated, members) => [SET_OPEN] + RenderMembers(negated, members)
  }

  function RenderMembers(negated: bool, members: string): string {
    (if negated then [SET_NOT] else []) + members + [SET_CLOSE]
  }

  function Render(pat: Pattern): string
    decreases pat
  {
    match pat
    case End => []
    case Cons(Anything, tail) => [ANYTHING] + Render(tail)
    case Cons(One(unit), tail) => RenderUnit(unit) + Render(tail)
    case Cons(Choice(bodies), tail) => [ALT_OPEN] + RenderBodies(pat, 0) + [ALT_CLOSE] + Render(tail)
  }

  /** The bodies of the leading alternative from number `j` on, with `|` between them. */
  function RenderBodies(pat: Pattern, j: nat): string
    requires pat.Cons? && pat.head.Choice? && j <= |pat.head.bodies|
    decreases pat, |pat.head.bodies| - j
  {
    if j == |pat.head.bodies| then []
    else Render(pat.head.bodies[j]) +
         if j + 1 == |pat.head.bodies| then [] else [ALT_OR] + RenderBodies(pat, j + 1)
  }

  // ----- scanning over rendered text -----

  lemma {:induction false} SetEndOverMembers(p: string, i: nat, hi: nat, members: string)
    requires hi <= |p| && Here(p, i, members + [SET_CLOSE]) && i + |members| < hi
    requires SET_CLOSE !in members
    ensures SetEnd(p, i, hi, Next) == Some(i + |members| + 1)
    decreases |members|
  {
    if members == [] {
      HereOne(p, i, SET_CLOSE);
    } else {
      assert members + [SET_CLOSE] == [members[0]] + (members[1..] + [SET_CLOSE]);
      HereHead(p, i, members[0], members[1..] + [SET_CLOSE]);
      SetEndOverMembers(p, i + 1, hi, members[1..]);
    }
  }

  lemma MembersText(negated: bool, members: string)
    ensures RenderMembers(negated, members) ==
            if negated then [SET_NOT] + (members + [SET_CLOSE]) else members + [SET_CLOSE]
  {
  }

  lemma SetEndOverClass(p: string, i: nat, hi: nat, unit: Unit)
    requires hi <= |p| && Spellable(Cons(One(unit), End)) && unit.Class?
    requires Here(p, i, RenderMembers(unit.negated, unit.members))
    requires i + |RenderMembers(unit.negated, unit.members)| <= hi
    ensures var end := i + |RenderMembers(unit.negated, unit.members)|;
            SetEnd(p, i, hi, NotOrFirst) == Some(end) && ClassOf(p[i..end - 1]) == unit
  {
    hide SetEnd, Here, RenderMembers;
    var Class(negated, members) := unit;
    var rest := members + [SET_CLOSE];
    MembersText(negated, members);
    if negated {
      HereHead(p, i, SET_NOT, rest);
      SetEndAfterFirst(p, i + 1, hi, members);
      SetEndNegated(p, i, hi);
      HeadTail(p, i, i + 1 + |members|);
    } else {
      SetEndAfterFirst(p, i, hi, members);
      SetEndPlain(p, i, hi);
    }
  }

  lemma SetEndAfterFirst(p: string, k: nat, hi: nat, members: string)
    requires hi <= |p| && members != "" && SET_CLOSE !in members[1..]
    requires Here(p, k, members + [SET_CLOSE]) && k + |members| < hi
    ensures SetEnd(p, k + 1, hi, Next) == Some(k + |members| + 1)
    ensures p[k..k + |members|] == members && p[k] == members[0]
  {
    hide SetEnd;
    var rest := members[1..] + [SET_CLOSE];
    assert members + [SET_CLOSE] == [members[0]] + rest;
    HereHead(p, k, members[0], rest);
    SetEndOverMembers(p, k + 1, hi, members[1..]);
    HereSplit(p, k, members, [SET_CLOSE]);
  }

  lemma SetEndNegated(p: string, i: nat, hi: nat)
    requires i + 1 < hi <= |p| && p[i] == SET_NOT
    ensures SetEnd(p, i, hi, NotOrFirst) == SetEnd(p, i + 2, hi, Next)
  {
  }

  lemma SetEndPlain(p: string, i: nat, hi: nat)
    requires i < hi <= |p| && p[i] != SET_NOT
    ensures SetEnd(p, i, hi, NotOrFirst) == SetEnd(p, i + 1, hi, Next)
  {
  }

  /** Both alternative scanners at `i` with `d1` open alternatives continue as at `j` with `d2`. */
  predicate ScansOn(p: string, i: nat, d1: int, j: nat, d2: int, hi: nat) {
    && i <= j <= hi <= |p|
    && AltEnd(p, i, hi, AltNext, d1) == AltEnd(p, j, hi, AltNext, d2)
    && AltSubEnd(p, i, hi, AltNext, d1) == AltSubEnd(p, j, hi, AltNext, d2)
  }

  lemma StepPlain(p: string, i: nat, hi: nat, depth: int)
    requires i < hi <= |p| && (p[i] == ALT_OR ==> depth > 1)
    requires p[i] != ESCAPE && p[i] != SET_OPEN && p[i] != ALT_OPEN && p[i] != ALT_CLOSE
    ensures ScansOn(p, i, depth, i + 1, depth, hi)
  {
  }

  lemma StepEscape(p: string, i: nat, hi: nat, depth: int)
    requires i + 1 < hi <= |p| && p[i] == ESCAPE
    ensures ScansOn(p, i, depth, i + 2, depth, hi)
  {
  }

  lemma StepSet(p: string, i: nat, hi: nat, depth: int, end: nat)
    requires i < hi <= |p| && p[i] == SET_OPEN && SetEnd(p, i + 1, hi, NotOrFirst) == Some(end)
    ensures ScansOn(p, i, depth, end, depth, hi)
  {
  }

  lemma StepOpen(p: string, i: nat, hi: nat, depth: int)
    requires i < hi <= |p| && p[i] == ALT_OPEN
    ensures ScansOn(p, i, depth, i + 1, depth + 1, hi)
  {
  }

  lemma StepClose(p: string, i: nat, hi: nat, depth: int)
    requires i < hi <= |p| && p[i] == ALT_CLOSE && depth > 1
    ensures ScansOn(p, i, depth, i + 1, depth - 1, hi)
  {
  }

  /** A rendered class begins with a bracket and ends where the scan for its end stops. */
  lemma ClassAt(p: string, i: nat, hi: nat, unit: Unit)
    requires hi <= |p| && Spellable(Cons(One(unit), End)) && unit.Class? && Here(p, i, RenderUnit(unit))
    requires i + |RenderUnit(unit)| <= hi
    ensures i + 1 < i + |RenderUnit(unit)| && p[i] == SET_OPEN
    ensures SetEnd(p, i + 1, hi, NotOrFirst) == Some(i + |RenderUnit(unit)|)
    ensures ClassOf(p[i + 1..i + |RenderUnit(unit)| - 1]) == unit
  {
    hide SetEnd, Here, RenderMembers, Spellable, ClassOf;
    ClassText(unit);
    HereHead(p, i, SET_OPEN, RenderMembers(unit.negated, unit.members));
    SetEndOverClass(p, i + 1, hi, unit);
  }

  lemma ClassText(unit: Unit)
    requires unit.Class?
    ensures RenderUnit(unit) == [SET_OPEN] + RenderMembers(unit.negated, unit.members)
    ensures |RenderMembers(unit.negated, unit.members)| > 0
  {
  }

  lemma ScanLiteral(p: string, i: nat, hi: nat, c: char, depth: int)
    requires hi <= |p| && Here(p, i, RenderUnit(Literal(c))) && i + |RenderUnit(Literal(c))| <= hi
    ensures ScansOn(p, i, depth, i + |RenderUnit(Literal(c))|, depth, hi)
  {
    hide ScansOn, Here;
    if IsCard(c) {
      assert [ESCAPE, c] == [ESCAPE] + [c];
      HereHead(p, i, ESCAPE, [c]);
      StepEscape(p, i, hi, depth);
    } else {
      HereOne(p, i, c);
      StepPlain(p, i, hi, depth);
    }
  }

  lemma ScanUnit(p: string, i: nat, hi: nat, unit: Unit, depth: int)
    requires hi <= |p| && Spellable(Cons(One(unit), End)) && Here(p, i, RenderUnit(unit))
    requires i + |RenderUnit(unit)| <= hi
    ensures ScansOn(p, i, depth, i + |RenderUnit(unit)|, depth, hi)
  {
    hide ScansOn, Spellable, Here, RenderMembers, IsCard, SetEnd;
    match unit
    case Single =>
      HereOne(p, i, SINGLE);
      StepPlain(p, i, hi, depth);
    case Literal(c) => ScanLiteral(p, i, hi, c, depth);
    case Class(_, _) =>
      ClassAt(p, i, hi, unit);
      StepSet(p, i, hi, depth, i + |RenderUnit(unit)|);
  }

  lemma ScansOnHere(p: string, i: nat, depth: int, hi: nat)
    requires i <= hi <= |p|
    ensures ScansOn(p, i, depth, i + |Render(End)|, depth, hi)
  {
  }

  lemma ScansOnTwice(p: string, i: nat, d1: int, j: nat, d2: int, k: nat, d3: int, hi: nat)
    requires ScansOn(p, i, d1, j, d2, hi) && ScansOn(p, j, d2, k, d3, hi)
    ensures ScansOn(p, i, d1, k, d3, hi)
  {
  }

  lemma ChoiceText(pat: Pattern)
    requires pat.Cons? && pat.head.Choice?
    ensures Render(pat) == [ALT_OPEN] + (RenderBodies(pat, 0) + ([ALT_CLOSE] + Render(pat.tail)))
  {
  }

  lemma ChoiceAt(p: string, i: nat, pat: Pattern)
    requires pat.Cons? && pat.head.Choice? && Here(p, i, Render(pat))
    ensures var inner := RenderBodies(pat, 0);
            && p[i] == ALT_OPEN && Here(p, i + 1, inner)
            && i + 1 + |inner| < |p| && p[i + 1 + |inner|] == ALT_CLOSE
            && Here(p, i + |inner| + 2, Render(pat.tail))
            && i + |inner| + 2 + |Render(pat.tail)| == i + |Render(pat)| <= |p|
  {
    hide Render, RenderBodies, Here;
    var inner := RenderBodies(pat, 0);
    var rest := Render(pat.tail);
    ChoiceText(pat);
    HereHead(p, i, ALT_OPEN, inner + ([ALT_CLOSE] + rest));
    HereSplit(p, i + 1, inner, [ALT_CLOSE] + rest);
    HereHead(p, i + 1 + |inner|, ALT_CLOSE, rest);
    HereFits(p, i + |inner| + 2, rest);
  }

  lemma HereFits(p: string, i: nat, w: string)
    requires Here(p, i, w)
    ensures i + |w| <= |p|
  {
  }

  lemma BodiesText(pat: Pattern, j: nat)
    requires pat.Cons? && pat.head.Choice? && j < |pat.head.bodies|
    ensures RenderBodies(pat, j) ==
            Render(pat.head.bodies[j]) +
            if j + 1 == |pat.head.bodies| then [] else [ALT_OR] + RenderBodies(pat, j + 1)
  {
  }

  lemma BodiesAt(p: string, i: nat, pat: Pattern, j: nat)
    requires pat.Cons? && pat.head.Choice? && j < |pat.head.bodies|
    requires Here(p, i, RenderBodies(pat, j))
    ensures Here(p, i, Render(pat.head.bodies[j]))
    ensures j + 1 < |pat.head.bodies| ==>
              var k := i + |Render(pat.head.bodies[j])|;
              k < |p| && p[k] == ALT_OR && Here(p, k + 1, RenderBodies(pat, j + 1))
    ensures |RenderBodies(pat, j)| == |Render(pat.head.bodies[j])| +
              if j + 1 < |pat.head.bodies| then 1 + |RenderBodies(pat, j + 1)| else 0
  {
    hide Render, RenderBodies, Here;
    var body := Render(pat.head.bodies[j]);
    BodiesText(pat, j);
    if j + 1 < |pat.head.bodies| {
      HereSplit(p, i, body, [ALT_OR] + RenderBodies(pat, j + 1));
      HereHead(p, i + |body|, ALT_OR, RenderBodies(pat, j + 1));
      HereFits(p, i + |body| + 1, RenderBodies(pat, j + 1));
    } else {
      HereSplit(p, i, body, []);
    }
  }

  /** How many characters the leading node of a pattern is written with. */
  function HeadLength(pat: Pattern): nat
    requires pat.Cons?
  {
    match pat.head
    case Anything => 1
    case One(unit) => |RenderUnit(unit)|
    case Choice(_) => |RenderBodies(pat, 0)| + 2
  }

  lemma TailAt(p: string, i: nat, pat: Pattern)
    requires pat.Cons? && Here(p, i, Render(pat))
    ensures Here(p, i + HeadLength(pat), Render(pat.tail))
    ensures |Render(pat)| == HeadLength(pat) + |Render(pat.tail)|
  {
    hide Here, RenderBodies, RenderUnit;
    match pat.head
    case Anything => HereHead(p, i, ANYTHING, Render(pat.tail));
    case One(unit) => HereSplit(p, i, RenderUnit(unit), Render(pat.tail));
    case Choice(_) => ChoiceAt(p, i, pat);
  }

  /** The alternative scanners pass over a rendered pattern as a whole. */
  lemma {:induction false} ScanRendered(p: string, i: nat, hi: nat, pat: Pattern, depth: int)
    requires hi <= |p| && Spellable(pat) && Here(p, i, Render(pat)) && i + |Render(pat)| <= hi
    requires depth >= 1
    ensures ScansOn(p, i, depth, i + |Render(pat)|, depth, hi)
    decreases pat, 3
  {
    hide ScansOn, Here, HeadLength, Render;
    match pat
    case End =>
      ScansOnHere(p, i, depth, hi);
    case Cons(_, tail) =>
      var k := i + HeadLength(pat);
      TailAt(p, i, pat);
      ScanHead(p, i, hi, pat, depth);
      ScanRendered(p, k, hi, tail, depth);
      ScansOnTwice(p, i, depth, k, depth, i + |Render(pat)|, depth, hi);
  }

  lemma {:induction false} ScanHead(p: string, i: nat, hi: nat, pat: Pattern, depth: int)
    requires hi <= |p| && Spellable(pat) && Here(p, i, Render(pat)) && i + |Render(pat)| <= hi
    requires pat.Cons? && depth >= 1
    ensures ScansOn(p, i, depth, i + HeadLength(pat), depth, hi)
    decreases pat, 2
  {
    hide AltEnd, AltSubEnd, IsAlt, SetEnd, IsSet, RenderBodies, RenderUnit, IsCard;
    match pat.head
    case Anything =>
      HereHead(p, i, ANYTHING, Render(pat.tail));
      StepPlain(p, i, hi, depth);
    case One(unit) =>
      HereSplit(p, i, RenderUnit(unit), Render(pat.tail));
      ScanUnit(p, i, hi, unit, depth);
    case Choice(_) =>
      ScanChoice(p, i, hi, pat, depth);
  }

  lemma {:induction false} ScanChoice(p: string, i: nat, hi: nat, pat: Pattern, depth: int)
    requires hi <= |p| && Spellable(pat) && Here(p, i, Render(pat)) && i + |Render(pat)| <= hi
    requires pat.Cons? && pat.head.Choice? && depth >= 1
    ensures ScansOn(p, i, depth, i + |RenderBodies(pat, 0)| + 2, depth, hi)
    decreases pat, 1
  {
    hide AltEnd, AltSubEnd, IsAlt, SetEnd, IsSet, Render, RenderBodies, Here;
    var close := i + |RenderBodies(pat, 0)| + 1;
    ChoiceAt(p, i, pat);
    StepOpen(p, i, hi, depth);
    ScanBodies(p, i + 1, hi, pat, 0, depth + 1);
    ScansOnTwice(p, i, depth, i + 1, depth + 1, close, depth + 1, hi);
    StepClose(p, close, hi, depth + 1);
    ScansOnTwice(p, i, depth, close, depth + 1, close + 1, depth, hi);
  }

  lemma {:induction false} ScanBodies(p: string, i: nat, hi: nat, pat: Pattern, j: nat, depth: int)
    requires pat.Cons? && pat.head.Choice? && j < |pat.head.bodies| && Spellable(pat)
    requires hi <= |p| && Here(p, i, RenderBodies(pat, j)) && i + |RenderBodies(pat, j)| <= hi
    requires depth >= 2
    ensures ScansOn(p, i, depth, i + |RenderBodies(pat, j)|, depth, hi)
    decreases pat, 0, |pat.head.bodies| - j
  {
    hide AltEnd, AltSubEnd, IsAlt, SetEnd, IsSet, Render, RenderBodies;
    BodiesAt(p, i, pat, j);
    var k := i + |Render(pat.head.bodies[j])|;
    var end := i + |RenderBodies(pat, j)|;
    ScanRendered(p, i, hi, pat.head.bodies[j], depth);
    if j + 1 < |pat.head.bodies| {
      StepPlain(p, k, hi, depth);
      ScansOnTwice(p, i, depth, k, depth, k + 1, depth, hi);
      ScanBodies(p, k + 1, hi, pat, j + 1, depth);
      ScansOnTwice(p, i, depth, k + 1, depth, end, depth, hi);
    }
  }

  /** At depth 1 the end scanner still passes over all bodies. */
  lemma {:induction false} EndOverBodies(p: string, i: nat, hi: nat, pat: Pattern, j: nat)
    requires pat.Cons? && pat.head.Choice? && j < |pat.head.bodies| && Spellable(pat)
    requires hi <= |p| && Here(p, i, RenderBodies(pat, j)) && i + |RenderBodies(pat, j)| < hi
    requires p[i + |RenderBodies(pat, j)|] == ALT_CLOSE
    ensures AltEnd(p, i, hi, AltNext, 1) == Some(i + |RenderBodies(pat, j)| + 1)
    decreases |pat.head.bodies| - j
  {
    hide AltEnd, AltSubEnd, IsAlt, SetEnd, IsSet, Render, RenderBodies;
    BodiesAt(p, i, pat, j);
    var k := i + |Render(pat.head.bodies[j])|;
    ScanRendered(p, i, hi, pat.head.bodies[j], 1);
    if j + 1 < |pat.head.bodies| {
      EndOverBodies(p, k + 1, hi, pat, j + 1);
      EndPastOr(p, k, hi);
    } else {
      EndHere(p, k, hi);
    }
  }

  lemma EndPastOr(p: string, k: nat, hi: nat)
    requires k < hi <= |p| && p[k] == ALT_OR
    ensures AltEnd(p, k, hi, AltNext, 1) == AltEnd(p, k + 1, hi, AltNext, 1)
  {
  }

  lemma EndHere(p: string, k: nat, hi: nat)
    requires k < hi <= |p| && p[k] == ALT_CLOSE
    ensures AltEnd(p, k, hi, AltNext, 1) == Some(k + 1)
    ensures AltSubEnd(p, k, hi, AltNext, 1) == Some(k)
  {
  }

  lemma SubEndAtOr(p: string, k: nat, hi: nat)
    requires k < hi <= |p| && p[k] == ALT_OR
    ensures AltSubEnd(p, k, hi, AltNext, 1) == Some(k)
  {
  }

  // ----- the round trip -----

  lemma {:induction false} ParseRenderedAt(p: string, lo: nat, hi: nat, pat: Pattern)
    requires Spellable(pat) && Here(p, lo, Render(pat)) && hi == lo + |Render(pat)|
    ensures Parse(p, lo, hi) == pat
    decreases pat, 2
  {
    hide AltEnd, AltSubEnd, IsAlt, SetEnd, IsSet, Parse, RenderUnit;
    if pat.End? {
      ParseEmpty(p, lo);
    } else {
      TailAt(p, lo, pat);
      ParseRenderedAt(p, lo + HeadLength(pat), hi, pat.tail);
      match pat.head {
        case Anything =>
          HereHead(p, lo, ANYTHING, Render(pat.tail));
          ParseAnything(p, lo, hi);
        case One(unit) =>
          HereSplit(p, lo, RenderUnit(unit), Render(pat.tail));
          ParseUnit(p, lo, hi, unit);
        case Choice(_) =>
          ParseChoice(p, lo, hi, pat);
      }
    }
  }

  lemma ParseEmpty(p: string, lo: nat)
    requires lo <= |p|
    ensures Parse(p, lo, lo) == End
  {
  }

  lemma ParseUnit(p: string, lo: nat, hi: nat, unit: Unit)
    requires hi <= |p| && Spellable(Cons(One(unit), End)) && Here(p, lo, RenderUnit(unit))
    requires lo + |RenderUnit(unit)| <= hi
    ensures Parse(p, lo, hi) == Cons(One(unit), Parse(p, lo + |RenderUnit(unit)|, hi))
  {
    hide Parse, Spellable, Here, RenderMembers, IsCard, SetEnd, ClassOf;
    match unit
    case Single =>
      HereOne(p, lo, SINGLE);
      ParseSingle(p, lo, hi);
    case Literal(c) => ParseLiteral(p, lo, hi, c);
    case Class(_, _) =>
      ClassAt(p, lo, hi, unit);
      ParseSet(p, lo, hi, lo + |RenderUnit(unit)|);
  }

  lemma ParseSingle(p: string, lo: nat, hi: nat)
    requires lo < hi <= |p| && p[lo] == SINGLE
    ensures Parse(p, lo, hi) == Cons(One(Single), Parse(p, lo + 1, hi))
  {
  }

  lemma ParseAnything(p: string, lo: nat, hi: nat)
    requires lo < hi <= |p| && p[lo] == ANYTHING
    ensures Parse(p, lo, hi) == Cons(Anything, Parse(p, lo + 1, hi))
  {
  }

  lemma ParseLiteral(p: string, lo: nat, hi: nat, c: char)
    requires lo < hi <= |p| && Here(p, lo, RenderUnit(Literal(c))) && lo + |RenderUnit(Literal(c))| <= hi
    ensures Parse(p, lo, hi) == Cons(One(Literal(c)), Parse(p, lo + |RenderUnit(Literal(c))|, hi))
  {
    hide AltEnd, AltSubEnd, IsAlt, SetEnd, IsSet;
    if IsCard(c) {
      assert [ESCAPE, c] == [ESCAPE] + [c];
      HereHead(p, lo, ESCAPE, [c]);
      HereOne(p, lo + 1, c);
    } else {
      HereOne(p, lo, c);
    }
  }

  lemma ParseSet(p: string, lo: nat, hi: nat, end: nat)
    requires lo < hi <= |p| && p[lo] == SET_OPEN && SetEnd(p, lo + 1, hi, NotOrFirst) == Some(end)
    ensures lo + 1 < end
    ensures Parse(p, lo, hi) == Cons(One(ClassOf(p[lo + 1..end - 1])), Parse(p, end, hi))
  {
  }

  lemma ParseAlt(p: string, lo: nat, hi: nat, end: nat)
    requires lo < hi <= |p| && p[lo] == ALT_OPEN && AltEnd(p, lo + 1, hi, AltNext, 1) == Some(end)
    ensures Parse(p, lo, hi) == Cons(Choice(ParseBodies(p, lo + 1, end)), Parse(p, end, hi))
  {
  }

  lemma {:induction false} ParseChoice(p: string, lo: nat, hi: nat, pat: Pattern)
    requires Spellable(pat) && Here(p, lo, Render(pat)) && hi == lo + |Render(pat)|
    requires pat.Cons? && pat.head.Choice?
    ensures lo + HeadLength(pat) <= hi
    ensures Parse(p, lo, hi) == Cons(pat.head, Parse(p, lo + HeadLength(pat), hi))
    decreases pat, 1
  {
    hide AltEnd, AltSubEnd, IsAlt, SetEnd, IsSet, Render, RenderBodies, Here, Parse, ParseBodies;
    var end := lo + HeadLength(pat);
    TailAt(p, lo, pat);
    ChoiceAt(p, lo, pat);
    EndOverBodies(p, lo + 1, hi, pat, 0);
    ParseBodiesRendered(p, lo + 1, end, pat, 0);
    assert pat.head.bodies[0..] == pat.head.bodies;
    ParseAlt(p, lo, hi, end);
  }

  lemma {:induction false} ParseBodiesRendered(p: string, p1: nat, p2: nat, pat: Pattern, j: nat)
    requires pat.Cons? && pat.head.Choice? && j < |pat.head.bodies| && Spellable(pat)
    requires Here(p, p1, RenderBodies(pat, j))
    requires p2 == p1 + |RenderBodies(pat, j)| + 1 && p2 <= |p| && p[p2 - 1] == ALT_CLOSE
    ensures ParseBodies(p, p1, p2) == pat.head.bodies[j..]
    decreases pat, 0, |pat.head.bodies| - j
  {
    hide AltEnd, AltSubEnd, IsAlt, SetEnd, IsSet, Parse, ParseBodies, Render, RenderBodies, Here;
    var body := pat.head.bodies[j];
    var sub := p1 + |Render(body)|;
    BodiesAt(p, p1, pat, j);
    ScanRendered(p, p1, p2, body, 1);
    ParseRenderedAt(p, p1, sub, body);
    if j + 1 < |pat.head.bodies| {
      SubEndAtOr(p, sub, p2);
      ParseBodiesRendered(p, sub + 1, p2, pat, j + 1);
    } else {
      EndHere(p, sub, p2);
    }
    ParseBodiesStep(p, p1, p2, sub);
    assert pat.head.bodies[j..] == [body] + pat.head.bodies[j + 1..];
  }

  lemma ParseBodiesStep(p: string, p1: nat, p2: nat, sub: nat)
    requires p1 <= sub < p2 <= |p| && AltSubEnd(p, p1, p2, AltNext, 1) == Some(sub)
    ensures ParseBodies(p, p1, p2) ==
            [Parse(p, p1, sub)] + if sub + 1 == p2 then [] else ParseBodies(p, sub + 1, p2)
  {
    hide AltEnd, AltSubEnd, IsAlt, SetEnd, IsSet, Parse;
  }

  /** Reading a written pattern gives the pattern back. */
  lemma ParseRendered(pat: Pattern)
    requires Spellable(pat)
    ensures ParseAll(Render(pat)) == pat
  {
    ParseRenderedAt(Render(pat), 0, |Render(pat)|, pat);
  }

  /** For every tree with fixed-width bodies, matching its text decides its language. */
  lemma MatchesRendered(text: string, pat: Pattern)
    requires Spellable(pat) && FixedBodies(pat)
    ensures Matches(text, Render(pat)).Done?
    ensures Matches(text, Render(pat)).res <==> Lang(pat, text)
  {
    ParseRendered(pat);
    MatchesComplete(text, Render(pat));
  }

  /** A small pattern with one of everything. */
  lemma Sample()
    ensures var body := Cons(One(Literal('c')), End);
            var tail := Cons(One(Class(true, "b")), Cons(Choice([body, End]), End));
            ParseAll("*?\\?[!b](c|)") == Cons(Anything, Cons(One(Single), Cons(One(Literal('?')), tail)))
  {
    var body := Cons(One(Literal('c')), End);
    var choice := Cons(Choice([body, End]), End);
    var tail := Cons(One(Class(true, "b")), choice);
    var last := Cons(One(Literal('?')), tail);
    assert Render(body) == "c";
    assert RenderBodies(choice, 1) == "";
    assert RenderBodies(choice, 0) == "c|";
    assert Render(choice) == "(c|)";
    assert Render(tail) == "[!b](c|)";
    assert Render(last) == "\\?[!b](c|)";
    assert Render(Cons(One(Single), last)) == "?\\?[!b](c|)";
    assert Spellable(body) && Spellable(choice) && Spellable(tail) && Spellable(last);
    assert Spellable(Cons(One(Single), last));
    var pat := Cons(Anything, Cons(One(Single), last));
    assert Render(pat) == "*?\\?[!b](c|)";
    ParseRendered(pat);
  }
}
