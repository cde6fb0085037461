/**
  What a wildcard pattern means: its syntax tree, the language of a tree, and the tree matcher
  that the raw matcher refines.
*/
module WildcardLanguage {
  import opened Wrappers
  import Slices

  /** What consumes exactly one item of the text. */
  datatype Unit = Single | Literal(c: char) | Class(negated: bool, members: string)

  datatype Node = Anything | One(unit: Unit) | Choice(bodies: seq<Pattern>)

  datatype Pattern = End | Cons(head: Node, tail: Pattern)

  predicate UnitMatches(u: Unit, c: char) {
    match u
    case Single => true
    case Literal(d) => c == d
    case Class(negated, members) => negated != (c in members)
  }

  /** The declarative language of a pattern. */
  ghost predicate Lang(pat: Pattern, w: string)
    decreases pat
  {
    match pat
    case End => w == []
    case Cons(Anything, tail) => exists k :: 0 <= k <= |w| && Lang(tail, w[k..])
    case Cons(Choice(bodies), tail) =>
      exists j, k :: 0 <= j < |bodies| && 0 <= k <= |w| && Lang(bodies[j], w[..k]) && Lang(tail, w[k..])
    case Cons(One(unit), tail) => w != [] && UnitMatches(unit, w[0]) && Lang(tail, w[1..])
  }

  /** The tree form of `match`: the end of the text it consumes, when it succeeds. */
  function MatchTree(text: string, k: nat, pat: Pattern, partial: bool): (r: Option<nat>)
    requires k <= |text|
    ensures r.Some? ==> k <= r.value <= |text| && (partial || r.value == |text|)
    decreases pat, |text| - k
  {
    match pat
    case End => if partial || k == |text| then Some(k) else None
    case Cons(Anything, tail) =>
      var r := MatchTree(text, k, tail, partial);
      if r.Some? then r
      else if k == |text| then None
      else MatchTree(text, k + 1, pat, partial)
    case Cons(Choice(bodies), tail) => MatchBodies(text, k, pat, 0, partial)
    case Cons(One(unit), tail) =>
      if k == |text| || !UnitMatches(unit, text[k]) then None
      else MatchTree(text, k + 1, tail, partial)
  }

  /** The tree form of `match_alt`, from body number `j` on. */
  function MatchBodies(text: string, k: nat, pat: Pattern, j: nat, partial: bool): (r: Option<nat>)
    requires k <= |text|
    requires pat.Cons? && pat.head.Choice? && j <= |pat.head.bodies|
    ensures r.Some? ==> k <= r.value <= |text| && (partial || r.value == |text|)
    decreases pat, |text| - k, |pat.head.bodies| - j
  {
    if j == |pat.head.bodies| then None
    else
      var first := MatchTree(text, k, pat.head.bodies[j], true);
      var r := if first.Some? then MatchTree(text, first.value, pat.tail, partial) else None;
      if r.Some? then r else MatchBodies(text, k, pat, j + 1, partial)
  }

  // ----- words of the language, as ranges of a text -----

  lemma AnythingWitness(tail: Pattern, w: string) returns (i: nat)
    requires Lang(Cons(Anything, tail), w)
    ensures i <= |w| && Lang(tail, w[i..])
  {
    i :| 0 <= i <= |w| && Lang(tail, w[i..]);
  }

  lemma AnythingSplits(tail: Pattern, text: string, j: nat, e: nat) returns (m: nat)
    requires j <= e <= |text| && Lang(Cons(Anything, tail), text[j..e])
    ensures j <= m <= e && Lang(tail, text[m..e])
  {
    hide Lang;
    var i := AnythingWitness(tail, text[j..e]);
    Slices.Drop(text, j, e, i);
    m := j + i;
  }

  lemma AnythingIntro(tail: Pattern, w: string, i: nat)
    requires i <= |w| && Lang(tail, w[i..])
    ensures Lang(Cons(Anything, tail), w)
  {
  }

  lemma AnythingJoins(tail: Pattern, text: string, j: nat, m: nat, e: nat)
    requires j <= m <= e <= |text| && Lang(tail, text[m..e])
    ensures Lang(Cons(Anything, tail), text[j..e])
  {
    hide Lang;
    Slices.Drop(text, j, e, m - j);
    AnythingIntro(tail, text[j..e], m - j);
  }

  lemma ChoiceWitness(bodies: seq<Pattern>, tail: Pattern, w: string) returns (j: nat, n: nat)
    requires Lang(Cons(Choice(bodies), tail), w)
    ensures j < |bodies| && n <= |w| && Lang(bodies[j], w[..n]) && Lang(tail, w[n..])
  {
    j, n :| 0 <= j < |bodies| && 0 <= n <= |w| && Lang(bodies[j], w[..n]) && Lang(tail, w[n..]);
  }

  lemma ChoiceSplits(bodies: seq<Pattern>, tail: Pattern, text: string, k: nat, e: nat) returns (j: nat, m: nat)
    requires k <= e <= |text| && Lang(Cons(Choice(bodies), tail), text[k..e])
    ensures j < |bodies| && k <= m <= e && Lang(bodies[j], text[k..m]) && Lang(tail, text[m..e])
  {
    hide Lang;
    var n;
    j, n := ChoiceWitness(bodies, tail, text[k..e]);
    Slices.Take(text, k, e, n);
    Slices.Drop(text, k, e, n);
    m := k + n;
  }

  lemma ChoiceIntro(bodies: seq<Pattern>, tail: Pattern, w: string, j: nat, n: nat)
    requires j < |bodies| && n <= |w| && Lang(bodies[j], w[..n]) && Lang(tail, w[n..])
    ensures Lang(Cons(Choice(bodies), tail), w)
  {
  }

  lemma ChoiceJoins(bodies: seq<Pattern>, tail: Pattern, text: string, k: nat, j: nat, m: nat, e: nat)
    requires k <= m <= e <= |text| && j < |bodies|
    requires Lang(bodies[j], text[k..m]) && Lang(tail, text[m..e])
    ensures Lang(Cons(Choice(bodies), tail), text[k..e])
  {
    hide Lang;
    Slices.Take(text, k, e, m - k);
    Slices.Drop(text, k, e, m - k);
    ChoiceIntro(bodies, tail, text[k..e], j, m - k);
  }

  /** Soundness: what is consumed belongs to the language. */
  lemma {:induction false} MatchTreeSound(text: string, k: nat, pat: Pattern, partial: bool)
    requires k <= |text|
    requires MatchTree(text, k, pat, partial).Some?
    ensures Lang(pat, text[k..MatchTree(text, k, pat, partial).value])
    decreases pat, |text| - k
  {
    var e := MatchTree(text, k, pat, partial).value;
    match pat
    case End =>
    case Cons(Anything, tail) =>
      if MatchTree(text, k, tail, partial).Some? {
        MatchTreeSound(text, k, tail, partial);
        AnythingJoins(tail, text, k, k, e);
      } else {
        MatchTreeSound(text, k + 1, pat, partial);
        var m := AnythingSplits(tail, text, k + 1, e);
        AnythingJoins(tail, text, k, m, e);
      }
    case Cons(Choice(bodies), tail) =>
      var j, m := MatchBodiesSound(text, k, pat, 0, partial);
      ChoiceJoins(bodies, tail, text, k, j, m, e);
    case Cons(One(_), tail) =>
      MatchTreeSound(text, k + 1, tail, partial);
      Slices.Drop(text, k, e, 1);
  }

  lemma {:induction false} MatchBodiesSound(text: string, k: nat, pat: Pattern, i: nat, partial: bool)
    returns (j: nat, m: nat)
    requires k <= |text|
    requires pat.Cons? && pat.head.Choice? && i <= |pat.head.bodies|
    requires MatchBodies(text, k, pat, i, partial).Some?
    ensures j < |pat.head.bodies| && k <= m <= MatchBodies(text, k, pat, i, partial).value
    ensures Lang(pat.head.bodies[j], text[k..m])
    ensures Lang(pat.tail, text[m..MatchBodies(text, k, pat, i, partial).value])
    decreases pat, |text| - k, |pat.head.bodies| - i
  {
    var first := MatchTree(text, k, pat.head.bodies[i], true);
    if first.Some? && MatchTree(text, first.value, pat.tail, partial).Some? {
      MatchTreeSound(text, k, pat.head.bodies[i], true);
      MatchTreeSound(text, first.value, pat.tail, partial);
      j, m := i, first.value;
    } else {
      j, m := MatchBodiesSound(text, k, pat, i + 1, partial);
    }
  }
}
