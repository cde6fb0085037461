/**
  Exactly which texts the tree matcher accepts.  A body of an alternative is committed to the
  first prefix it matches, so an alternative stands for the words of its bodies that have no
  shorter prefix in the same body; where every body has one fixed width these are all its words
  and the matcher is complete.
*/
module WildcardExactness {
  import opened Wrappers
  import Slices
  import opened WildcardLanguage

  /** No alternatives at all. */
  predicate Flat(pat: Pattern) {
    pat.End? || (!pat.head.Choice? && Flat(pat.tail))
  }

  /** The one length of all words of the pattern, when the pattern's shape fixes it. */
  function Width(pat: Pattern): Option<nat>
    decreases pat
  {
    match pat
    case End => Some(0)
    case Cons(Anything, _) => None
    case Cons(Choice(bodies), tail) =>
      if bodies == [] || Width(bodies[0]).None? || Width(tail).None? ||
         exists j :: 0 <= j < |bodies| && Width(bodies[j]) != Width(bodies[0])
      then None
      else Some(Width(bodies[0]).value + Width(tail).value)
    case Cons(One(_), tail) => if Width(tail).None? then None else Some(1 + Width(tail).value)
  }

  /** Every body of every alternative has no alternatives of its own, or a fixed width. */
  predicate SimpleBodies(pat: Pattern) {
    pat.Cons? ==>
    && (pat.head.Choice? ==> forall b :: b in pat.head.bodies ==> Flat(b) || Width(b).Some?)
    && SimpleBodies(pat.tail)
  }

  /** Every body of every alternative has a fixed width. */
  predicate FixedBodies(pat: Pattern) {
    pat.Cons? ==>
    && (pat.head.Choice? ==> forall b :: b in pat.head.bodies ==> Width(b).Some?)
    && FixedBodies(pat.tail)
  }

  /** A word of the body none of whose proper prefixes is one. */
  ghost predicate Minimal(body: Pattern, w: string) {
    Lang(body, w) && forall m :: 0 <= m < |w| ==> !Lang(body, w[..m])
  }

  /** The language of the pattern when each alternative takes minimal words only. */
  ghost predicate CommittedLang(pat: Pattern, w: string)
    decreases pat
  {
    match pat
    case End => w == []
    case Cons(Anything, tail) => exists k :: 0 <= k <= |w| && CommittedLang(tail, w[k..])
    case Cons(Choice(bodies), tail) =>
      exists j, k :: 0 <= j < |bodies| && 0 <= k <= |w| &&
        Minimal(bodies[j], w[..k]) && CommittedLang(tail, w[k..])
    case Cons(One(unit), tail) => w != [] && UnitMatches(unit, w[0]) && CommittedLang(tail, w[1..])
  }

  // ----- bodies of fixed width -----

  lemma {:induction false} WidthOfWords(pat: Pattern, w: string)
    requires Width(pat).Some? && Lang(pat, w)
    ensures |w| == Width(pat).value
    decreases pat
  {
    match pat
    case End =>
    case Cons(Choice(bodies), tail) =>
      var j, k :| 0 <= j < |bodies| && 0 <= k <= |w| && Lang(bodies[j], w[..k]) && Lang(tail, w[k..]);
      WidthOfWords(bodies[j], w[..k]);
      WidthOfWords(tail, w[k..]);
    case Cons(One(_), tail) =>
      WidthOfWords(tail, w[1..]);
  }

  /** `MatchBodies` succeeds as soon as one body and the tail after it do. */
  lemma {:induction false} BodiesSucceed(text: string, k: nat, pat: Pattern, i: nat, j: nat, partial: bool)
    requires k <= |text| && pat.Cons? && pat.head.Choice? && i <= j < |pat.head.bodies|
    requires var first := MatchTree(text, k, pat.head.bodies[j], true);
             first.Some? && MatchTree(text, first.value, pat.tail, partial).Some?
    ensures MatchBodies(text, k, pat, i, partial).Some?
    decreases j - i
  {
    if i < j {
      BodiesSucceed(text, k, pat, i + 1, j, partial);
    }
  }

  lemma {:induction false} FixedWidthComplete(text: string, k: nat, body: Pattern, e: nat)
    requires k <= e <= |text| && Width(body).Some?
    requires Lang(body, text[k..e])
    ensures MatchTree(text, k, body, true) == Some(e)
    decreases body
  {
    match body
    case End =>
    case Cons(Choice(bodies), tail) =>
      var j, m := ChoiceSplits(bodies, tail, text, k, e);
      FixedWidthComplete(text, k, bodies[j], m);
      FixedWidthComplete(text, m, tail, e);
      BodiesSucceed(text, k, body, 0, j, true);
      FixedWidthUnique(text, k, body, e);
    case Cons(One(_), tail) =>
      Slices.Drop(text, k, e, 1);
      FixedWidthComplete(text, k + 1, tail, e);
  }

  lemma FixedWidthUnique(text: string, k: nat, body: Pattern, e: nat)
    requires k <= e <= |text| && Width(body).Some?
    requires Lang(body, text[k..e]) && MatchTree(text, k, body, true).Some?
    ensures MatchTree(text, k, body, true) == Some(e)
  {
    MatchTreeSound(text, k, body, true);
    WidthOfWords(body, text[k..e]);
    WidthOfWords(body, text[k..MatchTree(text, k, body, true).value]);
  }

  // ----- bodies without alternatives -----

  lemma {:induction false} FlatComplete(text: string, k: nat, body: Pattern, e: nat)
    requires k <= e <= |text| && Flat(body)
    requires Lang(body, text[k..e])
    ensures MatchTree(text, k, body, true).Some?
    decreases body, |text| - k
  {
    match body
    case End =>
    case Cons(Anything, tail) =>
      var m := AnythingSplits(tail, text, k, e);
      if m == k {
        FlatComplete(text, k, tail, e);
      } else {
        AnythingJoins(tail, text, k + 1, m, e);
        FlatComplete(text, k + 1, body, e);
      }
    case Cons(One(_), tail) =>
      Slices.Drop(text, k, e, 1);
      FlatComplete(text, k + 1, tail, e);
  }

  /** No occurrence of a flat body that starts at or after `k` ends before the match found at `k`. */
  lemma {:induction false} FlatLeast(text: string, k: nat, body: Pattern, j: nat, e: nat)
    requires k <= j <= e <= |text| && Flat(body)
    requires MatchTree(text, k, body, true).Some?
    requires Lang(body, text[j..e])
    ensures MatchTree(text, k, body, true).value <= e
    decreases body, |text| - k
  {
    match body
    case End =>
    case Cons(Anything, tail) =>
      var m := AnythingSplits(tail, text, j, e);
      if MatchTree(text, k, tail, true).Some? {
        FlatLeast(text, k, tail, m, e);
      } else {
        if m == k {
          FlatComplete(text, k, tail, e);
        }
        AnythingJoins(tail, text, m, m, e);
        FlatLeast(text, k + 1, body, m, e);
      }
    case Cons(One(_), tail) =>
      Slices.Drop(text, j, e, 1);
      FlatLeast(text, k + 1, tail, j + 1, e);
  }

  /** A body matches up to `e` exactly when the text up to `e` is a minimal word of the body. */
  lemma BodyIsMinimal(text: string, k: nat, body: Pattern, e: nat)
    requires k <= e <= |text| && (Flat(body) || Width(body).Some?)
    ensures MatchTree(text, k, body, true) == Some(e) <==> Minimal(body, text[k..e])
  {
    var w := text[k..e];
    if MatchTree(text, k, body, true) == Some(e) {
      MatchTreeSound(text, k, body, true);
      forall m | 0 <= m < |w| ensures !Lang(body, w[..m]) {
        if Lang(body, w[..m]) {
          Slices.Take(text, k, e, m);
          if Flat(body) {
            FlatLeast(text, k, body, k, k + m);
          } else {
            FixedWidthComplete(text, k, body, k + m);
          }
        }
      }
    }
    if Minimal(body, w) {
      if Flat(body) {
        FlatComplete(text, k, body, e);
        FlatLeast(text, k, body, k, e);
        MatchTreeSound(text, k, body, true);
        var e' := MatchTree(text, k, body, true).value;
        Slices.Take(text, k, e, e' - k);
      } else {
        FixedWidthComplete(text, k, body, e);
      }
    }
  }

  // ----- whole patterns -----

  lemma {:induction false} BodiesFail(text: string, k: nat, pat: Pattern, i: nat, partial: bool) returns (j: nat)
    requires k <= |text| && pat.Cons? && pat.head.Choice? && i <= |pat.head.bodies|
    requires MatchBodies(text, k, pat, i, partial).Some?
    ensures j < |pat.head.bodies|
    ensures MatchTree(text, k, pat.head.bodies[j], true).Some?
    ensures MatchTree(text, MatchTree(text, k, pat.head.bodies[j], true).value, pat.tail, partial).Some?
    decreases |pat.head.bodies| - i
  {
    var first := MatchTree(text, k, pat.head.bodies[i], true);
    if first.Some? && MatchTree(text, first.value, pat.tail, partial).Some? {
      j := i;
    } else {
      j := BodiesFail(text, k, pat, i + 1, partial);
    }
  }

  /** The matcher accepts exactly the committed language. */
  lemma {:induction false} MatchTreeExact(text: string, k: nat, pat: Pattern)
    requires k <= |text| && SimpleBodies(pat)
    ensures MatchTree(text, k, pat, false).Some? <==> CommittedLang(pat, text[k..])
    decreases pat, |text| - k
  {
    var w := text[k..];
    match pat
    case End =>
    case Cons(Anything, tail) =>
      MatchTreeExact(text, k, tail);
      assert w[0..] == w;
      if k < |text| {
        MatchTreeExact(text, k + 1, pat);
        if CommittedLang(pat, text[k + 1..]) {
          var m :| 0 <= m <= |w| - 1 && CommittedLang(tail, text[k + 1..][m..]);
          Slices.DropRest(text, k + 1, m);
          Slices.DropRest(text, k, m + 1);
        }
        if CommittedLang(pat, w) && !CommittedLang(tail, w) {
          var m :| 0 <= m <= |w| && CommittedLang(tail, w[m..]);
          Slices.DropRest(text, k + 1, m - 1);
          Slices.DropRest(text, k, m);
        }
      }
    case Cons(Choice(bodies), tail) =>
      ChoiceExact(text, k, pat);
    case Cons(One(_), tail) =>
      if k < |text| {
        MatchTreeExact(text, k + 1, tail);
        Slices.DropRest(text, k, 1);
      }
  }

  lemma {:induction false} ChoiceExact(text: string, k: nat, pat: Pattern)
    requires k <= |text| && SimpleBodies(pat) && pat.Cons? && pat.head.Choice?
    ensures MatchBodies(text, k, pat, 0, false).Some? <==> CommittedLang(pat, text[k..])
    decreases pat, |text| - k, 0
  {
    var bodies := pat.head.bodies;
    if MatchBodies(text, k, pat, 0, false).Some? {
      var j := BodiesFail(text, k, pat, 0, false);
      assert bodies[j] in bodies;
      var e := MatchTree(text, k, bodies[j], true).value;
      BodyIsMinimal(text, k, bodies[j], e);
      MatchTreeExact(text, e, pat.tail);
      CommittedJoins(pat, text, k, j, e);
    }
    if CommittedLang(pat, text[k..]) {
      var j, e := CommittedSplits(pat, text, k);
      assert bodies[j] in bodies;
      BodyIsMinimal(text, k, bodies[j], e);
      MatchTreeExact(text, e, pat.tail);
      BodiesSucceed(text, k, pat, 0, j, false);
    }
  }

  lemma CommittedSplits(pat: Pattern, text: string, k: nat) returns (j: nat, e: nat)
    requires k <= |text| && pat.Cons? && pat.head.Choice? && CommittedLang(pat, text[k..])
    ensures j < |pat.head.bodies| && k <= e <= |text|
    ensures Minimal(pat.head.bodies[j], text[k..e]) && CommittedLang(pat.tail, text[e..])
  {
    var w := text[k..];
    var i, m :| 0 <= i < |pat.head.bodies| && 0 <= m <= |w| &&
                Minimal(pat.head.bodies[i], w[..m]) && CommittedLang(pat.tail, w[m..]);
    Slices.TakeRest(text, k, m);
    Slices.DropRest(text, k, m);
    j, e := i, k + m;
  }

  lemma CommittedJoins(pat: Pattern, text: string, k: nat, j: nat, e: nat)
    requires k <= e <= |text| && pat.Cons? && pat.head.Choice? && j < |pat.head.bodies|
    requires Minimal(pat.head.bodies[j], text[k..e]) && CommittedLang(pat.tail, text[e..])
    ensures CommittedLang(pat, text[k..])
  {
    var w := text[k..];
    Slices.TakeRest(text, k, e - k);
    Slices.DropRest(text, k, e - k);
  }

  /** With bodies of fixed width nothing is lost by committing. */
  lemma {:induction false} FixedBodiesLoseNothing(pat: Pattern, w: string)
    requires FixedBodies(pat)
    ensures CommittedLang(pat, w) <==> Lang(pat, w)
    decreases pat
  {
    match pat
    case End =>
    case Cons(Anything, tail) =>
      forall k | 0 <= k <= |w| { FixedBodiesLoseNothing(tail, w[k..]); }
    case Cons(Choice(bodies), tail) =>
      forall k | 0 <= k <= |w| { FixedBodiesLoseNothing(tail, w[k..]); }
      forall j, k | 0 <= j < |bodies| && 0 <= k <= |w|
        ensures Minimal(bodies[j], w[..k]) <==> Lang(bodies[j], w[..k])
      {
        assert bodies[j] in bodies;
        if Lang(bodies[j], w[..k]) {
          WidthOfWords(bodies[j], w[..k]);
          forall m | 0 <= m < k ensures !Lang(bodies[j], w[..k][..m]) {
            if Lang(bodies[j], w[..k][..m]) { WidthOfWords(bodies[j], w[..k][..m]); }
          }
        }
      }
    case Cons(One(_), tail) =>
      if w != [] { FixedBodiesLoseNothing(tail, w[1..]); }
  }

  lemma FixedBodiesAreSimple(pat: Pattern)
    requires FixedBodies(pat)
    ensures SimpleBodies(pat)
  {
  }
}
