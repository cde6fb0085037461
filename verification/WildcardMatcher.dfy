/**
  The backtracking matcher of wildcards.hpp over raw pattern text, with the default cards.
  Sequence and pattern iterators are indices; `Throws` is `std::invalid_argument`.
*/
module WildcardMatcher {
  import opened Wrappers
  import opened WildcardScanners

  datatype Outcome = Throws | Done(res: bool, s: nat, p: nat)

  datatype MatchSetState = SetOpen | NotOrFirstIn | FirstOut | NextIn | NextOut

  /** Does the item at `k` belong to the set that continues at `i` in `state`? */
  function MatchSet(text: string, k: nat, p: string, i: nat, hi: nat, state: MatchSetState): (r: Outcome)
    requires k <= |text| && i <= hi <= |p|
    ensures r.Done? ==> r.s == k && i <= r.p < hi
    ensures r.Done? && r.res && (state == NotOrFirstIn || state == NextIn || state == FirstOut) ==> k < |text|
    decreases hi - i
  {
    if i == hi then Throws else
    match state
    case SetOpen => if p[i] == SET_OPEN then MatchSet(text, k, p, i + 1, hi, NotOrFirstIn) else Throws
    case NotOrFirstIn =>
      if p[i] == SET_NOT then MatchSet(text, k, p, i + 1, hi, FirstOut)
      else if k == |text| then Done(false, k, i)
      else if text[k] == p[i] then Done(true, k, i)
      else MatchSet(text, k, p, i + 1, hi, NextIn)
    case FirstOut =>
      if k == |text| || text[k] == p[i] then Done(false, k, i)
      else MatchSet(text, k, p, i + 1, hi, NextOut)
    case NextIn =>
      if p[i] == SET_CLOSE || k == |text| then Done(false, k, i)
      else if text[k] == p[i] then Done(true, k, i)
      else MatchSet(text, k, p, i + 1, hi, NextIn)
    case NextOut =>
      if p[i] == SET_CLOSE then Done(true, k, i)
      else if k == |text| || text[k] == p[i] then Done(false, k, i)
      else MatchSet(text, k, p, i + 1, hi, NextOut)
  }

  /** The loop form of `MatchSet`. */
  method MatchSetLoop(text: string, k: nat, p: string, i: nat, hi: nat, start: MatchSetState)
    returns (r: Outcome)
    requires k <= |text| && i <= hi <= |p|
    ensures r == MatchSet(text, k, p, i, hi, start)
  {
    var j, state := i, start;
    while j != hi
      invariant i <= j <= hi
      invariant MatchSet(text, k, p, i, hi, start) == MatchSet(text, k, p, j, hi, state)
      decreases hi - j
    {
      match state {
        case SetOpen =>
          if p[j] != SET_OPEN { return Throws; }
          state := NotOrFirstIn;
        case NotOrFirstIn =>
          if p[j] == SET_NOT {
            state := FirstOut;
          } else {
            if k == |text| { return Done(false, k, j); }
            if text[k] == p[j] { return Done(true, k, j); }
            state := NextIn;
          }
        case FirstOut =>
          if k == |text| || text[k] == p[j] { return Done(false, k, j); }
          state := NextOut;
        case NextIn =>
          if p[j] == SET_CLOSE || k == |text| { return Done(false, k, j); }
          if text[k] == p[j] { return Done(true, k, j); }
        case NextOut =>
          if p[j] == SET_CLOSE { return Done(true, k, j); }
          if k == |text| || text[k] == p[j] { return Done(false, k, j); }
      }
      j := j + 1;
    }
    return Throws;
  }

  /** Tries the alternative bodies from `p1` on, each with the rest `p2..p2end` after it.  The
      first prefix a body matches is the only one tried for that body. */
  function MatchAlt(text: string, k: nat, p: string, p1: nat, p1end: nat, p2: nat, p2end: nat,
                    partial: bool): (r: Outcome)
    requires k <= |text| && p1 <= p1end < p2 <= p2end <= |p|
    ensures r.Done? && r.res ==> k <= r.s <= |text|
    decreases p2end - p1, |text| - k
  {
    var result1 := Match(text, k, p, p1, p1end, true, false);
    if result1.Throws? then Throws else
    var result2 := if result1.res then Match(text, result1.s, p, p2, p2end, partial, false)
                   else result1;
    if result2.Throws? then Throws
    else if result1.res && result2.res then result2
    else
      var next := p1end + 1;
      if next == p2 then Done(false, k, p1end) else
      match AltSubEnd(p, next, p2, AltNext, 1)
      case None => Throws
      case Some(nextEnd) => MatchAlt(text, k, p, next, nextEnd, p2, p2end, partial)
  }

  /** Matches `text[k..]` against the pattern range `lo..hi`; with `partial` a prefix will do. */
  function Match(text: string, k: nat, p: string, lo: nat, hi: nat, partial: bool, escape: bool): (r: Outcome)
    requires k <= |text| && lo <= hi <= |p|
    ensures r.Done? && r.res ==> k <= r.s <= |text|
    decreases hi - lo, |text| - k
  {
    if lo == hi then Done(partial || k == |text|, k, lo)
    else if escape then
      if k == |text| || text[k] != p[lo] then Done(false, k, lo)
      else Match(text, k + 1, p, lo + 1, hi, partial, false)
    else if p[lo] == ANYTHING then
      var result := Match(text, k, p, lo + 1, hi, partial, false);
      if result.Throws? || result.res then result
      else if k == |text| then Done(false, k, lo)
      else Match(text, k + 1, p, lo, hi, partial, false)
    else if p[lo] == SINGLE then
      if k == |text| then Done(false, k, lo)
      else Match(text, k + 1, p, lo + 1, hi, partial, false)
    else if p[lo] == ESCAPE then Match(text, k, p, lo + 1, hi, partial, true)
    else if p[lo] == SET_OPEN && IsSet(p, lo + 1, hi, NotOrFirst) then
      var result := MatchSet(text, k, p, lo + 1, hi, NotOrFirstIn);
      if result.Throws? || !result.res then result
      else Match(text, k + 1, p, SetEnd(p, lo + 1, hi, NotOrFirst).value, hi, partial, false)
    else if p[lo] == ALT_OPEN && IsAlt(p, lo + 1, hi, AltNext, 1) then
      var end := AltEnd(p, lo + 1, hi, AltNext, 1).value;
      match AltSubEnd(p, lo + 1, end, AltNext, 1)
      case None => Throws
      case Some(sub) => MatchAlt(text, k, p, lo + 1, sub, end, hi, partial)
    else if k == |text| || text[k] != p[lo] then Done(false, k, lo)
    else Match(text, k + 1, p, lo + 1, hi, partial, false)
  }

  /** `wildcards::match(sequence, pattern)`. */
  function Matches(text: string, pattern: string): Outcome {
    Match(text, 0, pattern, 0, |pattern|, false, false)
  }
}
