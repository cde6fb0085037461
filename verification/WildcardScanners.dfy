/**
  The scanners of wildcards.hpp over raw pattern text.  A pattern iterator pair is modelled
  as two indices `i <= hi` into the pattern, and `None` is the exception the source throws
  when a range is not a valid set or alternative.  The functions are the recursive forms of
  the source; the methods are its loop forms.
*/
module WildcardScanners {
  import opened Wrappers

  const ANYTHING := '*'
  const SINGLE := '?'
  const ESCAPE := '\\'
  const SET_OPEN := '['
  const SET_CLOSE := ']'
  const SET_NOT := '!'
  const ALT_OPEN := '('
  const ALT_CLOSE := ')'
  const ALT_OR := '|'

  datatype SetState = Open | NotOrFirst | First | Next

  datatype AltState = AltOpen | AltNext | AltEscape

  /** Does a set start at `i` (or continue there, from `state`) within the range? */
  predicate IsSet(p: string, i: nat, hi: nat, state: SetState)
    requires i <= hi <= |p|
    decreases hi - i
  {
    i < hi &&
    match state
    case Open => p[i] == SET_OPEN && IsSet(p, i + 1, hi, NotOrFirst)
    case NotOrFirst => IsSet(p, i + 1, hi, if p[i] == SET_NOT then First else Next)
    case First => IsSet(p, i + 1, hi, Next)
    case Next => p[i] == SET_CLOSE || IsSet(p, i + 1, hi, Next)
  }

  /** The position just after the set that starts at `i`, or `None` when it is no set. */
  function SetEnd(p: string, i: nat, hi: nat, state: SetState): (r: Option<nat>)
    requires i <= hi <= |p|
    ensures r.Some? ==> i < r.value <= hi && p[r.value - 1] == SET_CLOSE
    ensures r.Some? <==> IsSet(p, i, hi, state)
    decreases hi - i
  {
    if i == hi then None else
    match state
    case Open => if p[i] == SET_OPEN then SetEnd(p, i + 1, hi, NotOrFirst) else None
    case NotOrFirst => SetEnd(p, i + 1, hi, if p[i] == SET_NOT then First else Next)
    case First => SetEnd(p, i + 1, hi, Next)
    case Next => if p[i] == SET_CLOSE then Some(i + 1) else SetEnd(p, i + 1, hi, Next)
  }

  /** Does an alternative start at `i`, or end well when `depth` of them are open there? */
  predicate IsAlt(p: string, i: nat, hi: nat, state: AltState, depth: int)
    requires i <= hi <= |p|
    decreases hi - i
  {
    i < hi &&
    match state
    case AltOpen => p[i] == ALT_OPEN && IsAlt(p, i + 1, hi, AltNext, depth + 1)
    case AltEscape => IsAlt(p, i + 1, hi, AltNext, depth)
    case AltNext =>
      if p[i] == ESCAPE then IsAlt(p, i + 1, hi, AltEscape, depth)
      else if p[i] == SET_OPEN && IsSet(p, i + 1, hi, NotOrFirst) then
        IsAlt(p, SetEnd(p, i + 1, hi, NotOrFirst).value, hi, AltNext, depth)
      else if p[i] == ALT_OPEN then IsAlt(p, i + 1, hi, AltNext, depth + 1)
      else if p[i] == ALT_CLOSE then depth == 1 || IsAlt(p, i + 1, hi, AltNext, depth - 1)
      else IsAlt(p, i + 1, hi, AltNext, depth)
  }

  /** The position just after the closing card of the alternative. */
  function AltEnd(p: string, i: nat, hi: nat, state: AltState, depth: int): (r: Option<nat>)
    requires i <= hi <= |p|
    ensures r.Some? ==> i < r.value <= hi && p[r.value - 1] == ALT_CLOSE
    ensures r.Some? <==> IsAlt(p, i, hi, state, depth)
    decreases hi - i
  {
    if i == hi then None else
    match state
    case AltOpen => if p[i] == ALT_OPEN then AltEnd(p, i + 1, hi, AltNext, depth + 1) else None
    case AltEscape => AltEnd(p, i + 1, hi, AltNext, depth)
    case AltNext =>
      if p[i] == ESCAPE then AltEnd(p, i + 1, hi, AltEscape, depth)
      else if p[i] == SET_OPEN && IsSet(p, i + 1, hi, NotOrFirst) then
        AltEnd(p, SetEnd(p, i + 1, hi, NotOrFirst).value, hi, AltNext, depth)
      else if p[i] == ALT_OPEN then AltEnd(p, i + 1, hi, AltNext, depth + 1)
      else if p[i] == ALT_CLOSE then
        if depth == 1 then Some(i + 1) else AltEnd(p, i + 1, hi, AltNext, depth - 1)
      else AltEnd(p, i + 1, hi, AltNext, depth)
  }

  /** The position of the card that ends the current alternative body. */
  function AltSubEnd(p: string, i: nat, hi: nat, state: AltState, depth: int): (r: Option<nat>)
    requires i <= hi <= |p|
    requires state != AltOpen
    ensures r.Some? ==> i <= r.value < hi && (p[r.value] == ALT_CLOSE || p[r.value] == ALT_OR)
    decreases hi - i
  {
    if i == hi then None else
    if state == AltEscape then AltSubEnd(p, i + 1, hi, AltNext, depth)
    else if p[i] == ESCAPE then AltSubEnd(p, i + 1, hi, AltEscape, depth)
    else if p[i] == SET_OPEN && IsSet(p, i + 1, hi, NotOrFirst) then
      AltSubEnd(p, SetEnd(p, i + 1, hi, NotOrFirst).value, hi, AltNext, depth)
    else if p[i] == ALT_OPEN then AltSubEnd(p, i + 1, hi, AltNext, depth + 1)
    else if p[i] == ALT_CLOSE then
      if depth == 1 then Some(i) else AltSubEnd(p, i + 1, hi, AltNext, depth - 1)
    else if p[i] == ALT_OR then
      if depth == 1 then Some(i) else AltSubEnd(p, i + 1, hi, AltNext, depth)
    else AltSubEnd(p, i + 1, hi, AltNext, depth)
  }

  // ----- the loop forms -----

  method IsSetLoop(p: string, i: nat, hi: nat, start: SetState) returns (r: bool)
    requires i <= hi <= |p|
    ensures r == IsSet(p, i, hi, start)
  {
    var k, state := i, start;
    while k != hi
      invariant i <= k <= hi
      invariant IsSet(p, i, hi, start) == IsSet(p, k, hi, state)
      decreases hi - k
    {
      match state {
        case Open =>
          if p[k] != SET_OPEN { return false; }
          state := NotOrFirst;
        case NotOrFirst =>
          if p[k] == SET_NOT { state := First; } else { state := Next; }
        case First =>
          state := Next;
        case Next =>
          if p[k] == SET_CLOSE { return true; }
      }
      k := k + 1;
    }
    return false;
  }

  method SetEndLoop(p: string, i: nat, hi: nat, start: SetState) returns (r: Option<nat>)
    requires i <= hi <= |p|
    ensures r == SetEnd(p, i, hi, start)
  {
    var k, state := i, start;
    while k != hi
      invariant i <= k <= hi
      invariant SetEnd(p, i, hi, start) == SetEnd(p, k, hi, state)
      decreases hi - k
    {
      match state {
        case Open =>
          if p[k] != SET_OPEN { return None; }
          state := NotOrFirst;
        case NotOrFirst =>
          if p[k] == SET_NOT { state := First; } else { state := Next; }
        case First =>
          state := Next;
        case Next =>
          if p[k] == SET_CLOSE { return Some(k + 1); }
      }
      k := k + 1;
    }
    return None;
  }

  method IsAltLoop(p: string, i: nat, hi: nat, start: AltState, startDepth: int) returns (r: bool)
    requires i <= hi <= |p|
    ensures r == IsAlt(p, i, hi, start, startDepth)
  {
    var k, state, depth := i, start, startDepth;
    while k != hi
      invariant i <= k <= hi
      invariant IsAlt(p, i, hi, start, startDepth) == IsAlt(p, k, hi, state, depth)
      decreases hi - k
    {
      match state {
        case AltOpen =>
          if p[k] != ALT_OPEN { return false; }
          state := AltNext;
          depth := depth + 1;
        case AltNext =>
          if p[k] == ESCAPE {
            state := AltEscape;
          } else if p[k] == SET_OPEN && IsSet(p, k + 1, hi, NotOrFirst) {
            k := SetEnd(p, k + 1, hi, NotOrFirst).value - 1;
          } else if p[k] == ALT_OPEN {
            depth := depth + 1;
          } else if p[k] == ALT_CLOSE {
            depth := depth - 1;
            if depth == 0 { return true; }
          }
        case AltEscape =>
          state := AltNext;
      }
      k := k + 1;
    }
    return false;
  }

  method AltEndLoop(p: string, i: nat, hi: nat, start: AltState, startDepth: int)
    returns (r: Option<nat>)
    requires i <= hi <= |p|
    ensures r == AltEnd(p, i, hi, start, startDepth)
  {
    var k, state, depth := i, start, startDepth;
    while k != hi
      invariant i <= k <= hi
      invariant AltEnd(p, i, hi, start, startDepth) == AltEnd(p, k, hi, state, depth)
      decreases hi - k
    {
      match state {
        case AltOpen =>
          if p[k] != ALT_OPEN { return None; }
          state := AltNext;
          depth := depth + 1;
        case AltNext =>
          if p[k] == ESCAPE {
            state := AltEscape;
          } else if p[k] == SET_OPEN && IsSet(p, k + 1, hi, NotOrFirst) {
            k := SetEnd(p, k + 1, hi, NotOrFirst).value - 1;
          } else if p[k] == ALT_OPEN {
            depth := depth + 1;
          } else if p[k] == ALT_CLOSE {
            depth := depth - 1;
            if depth == 0 { return Some(k + 1); }
          }
        case AltEscape =>
          state := AltNext;
      }
      k := k + 1;
    }
    return None;
  }

  method AltSubEndLoop(p: string, i: nat, hi: nat) returns (r: Option<nat>)
    requires i <= hi <= |p|
    ensures r == AltSubEnd(p, i, hi, AltNext, 1)
  {
    var k, state, depth := i, AltNext, 1;
    while k != hi
      invariant i <= k <= hi
      invariant state != AltOpen
      invariant AltSubEnd(p, i, hi, AltNext, 1) == AltSubEnd(p, k, hi, state, depth)
      decreases hi - k
    {
      if state == AltNext {
        if p[k] == ESCAPE {
          state := AltEscape;
        } else if p[k] == SET_OPEN && IsSet(p, k + 1, hi, NotOrFirst) {
          k := SetEnd(p, k + 1, hi, NotOrFirst).value - 1;
        } else if p[k] == ALT_OPEN {
          depth := depth + 1;
        } else if p[k] == ALT_CLOSE {
          depth := depth - 1;
          if depth == 0 { return Some(k); }
        } else if p[k] == ALT_OR {
          if depth == 1 { return Some(k); }
        }
      } else {
        state := AltNext;
      }
      k := k + 1;
    }
    return None;
  }

  // ----- agreement of the scanners -----

  /** A set found in a range is found, with the same end, in every other range that holds that
      end, and in no range that stops short of it. */
  lemma {:induction false} SetEndNarrow(p: string, i: nat, hi: nat, narrow: nat, state: SetState)
    requires i <= narrow <= hi <= |p|
    ensures var wide := SetEnd(p, i, hi, state);
            SetEnd(p, i, narrow, state) ==
            if wide.Some? && wide.value <= narrow then wide else None
    decreases hi - i
  {
    if i < narrow {
      match state
      case Open => SetEndNarrow(p, i + 1, hi, narrow, NotOrFirst);
      case NotOrFirst => SetEndNarrow(p, i + 1, hi, narrow, if p[i] == SET_NOT then First else Next);
      case First => SetEndNarrow(p, i + 1, hi, narrow, Next);
      case Next => SetEndNarrow(p, i + 1, hi, narrow, Next);
    }
  }

  /** What the body scanner finds on the range narrowed to an alternative that ends at `end`:
      a body end, which is either the closing card or followed by a range that the alternative
      scanner again accepts with the same end. */
  ghost predicate BodyEndInside(p: string, sub: Option<nat>, end: nat, hi: nat)
    requires end <= hi <= |p|
  {
    && sub.Some?
    && sub.value < end
    && if p[sub.value] == ALT_CLOSE then sub.value + 1 == end
       else sub.value + 1 < end && AltEnd(p, sub.value + 1, hi, AltNext, 1) == Some(end)
  }

  /** Whenever the alternative scanner accepts, every later body scan succeeds inside it. */
  lemma {:induction false} SubEndInsideAlt(p: string, i: nat, hi: nat, state: AltState,
                                           depth: int, end: nat)
    requires i <= hi <= |p| && state != AltOpen && depth >= 1
    requires AltEnd(p, i, hi, state, depth) == Some(end)
    ensures BodyEndInside(p, AltSubEnd(p, i, end, state, depth), end, hi)
    decreases hi - i
  {
    hide AltEnd, AltSubEnd, IsAlt, SetEnd, IsSet;
    if state == AltEscape {
      SubEndPlain(p, i, hi, state, depth, end);
      SubEndInsideAlt(p, i + 1, hi, AltNext, depth, end);
    } else if p[i] == ESCAPE {
      SubEndPlain(p, i, hi, state, depth, end);
      SubEndInsideAlt(p, i + 1, hi, AltEscape, depth, end);
    } else if p[i] == SET_OPEN {
      SubEndSet(p, i, hi, depth, end);
      var set_ := SetEnd(p, i + 1, hi, NotOrFirst);
      SubEndInsideAlt(p, if set_.Some? then set_.value else i + 1, hi, AltNext, depth, end);
    } else {
      SubEndStep(p, i, hi, depth, end);
      if !(p[i] == ALT_CLOSE && depth == 1) && !(p[i] == ALT_OR && depth == 1) {
        var d := if p[i] == ALT_OPEN then depth + 1 else if p[i] == ALT_CLOSE then depth - 1 else depth;
        SubEndInsideAlt(p, i + 1, hi, AltNext, d, end);
      }
    }
  }

  lemma SubEndPlain(p: string, i: nat, hi: nat, state: AltState, depth: int, end: nat)
    requires i < hi <= |p| && (state == AltEscape || (state == AltNext && p[i] == ESCAPE))
    requires AltEnd(p, i, hi, state, depth) == Some(end)
    ensures i + 1 < end
    ensures var next := if state == AltEscape then AltNext else AltEscape;
            AltEnd(p, i + 1, hi, next, depth) == Some(end)
            && AltSubEnd(p, i, end, state, depth) == AltSubEnd(p, i + 1, end, next, depth)
  {
  }

  lemma SubEndSet(p: string, i: nat, hi: nat, depth: int, end: nat)
    requires i < hi <= |p| && p[i] == SET_OPEN && AltEnd(p, i, hi, AltNext, depth) == Some(end)
    ensures var next := if IsSet(p, i + 1, hi, NotOrFirst) then SetEnd(p, i + 1, hi, NotOrFirst).value else i + 1;
            i < next < end
            && AltEnd(p, next, hi, AltNext, depth) == Some(end)
            && AltSubEnd(p, i, end, AltNext, depth) == AltSubEnd(p, next, end, AltNext, depth)
  {
    SetEndNarrow(p, i + 1, hi, end, NotOrFirst);
  }

  lemma SubEndStep(p: string, i: nat, hi: nat, depth: int, end: nat)
    requires i < hi <= |p| && depth >= 1
    requires p[i] != ESCAPE && p[i] != SET_OPEN
    requires AltEnd(p, i, hi, AltNext, depth) == Some(end)
    ensures p[i] == ALT_CLOSE && depth == 1 ==> end == i + 1
    ensures !(p[i] == ALT_CLOSE && depth == 1) ==>
              var d := if p[i] == ALT_OPEN then depth + 1 else if p[i] == ALT_CLOSE then depth - 1 else depth;
              i + 1 < end && AltEnd(p, i + 1, hi, AltNext, d) == Some(end)
    ensures (p[i] == ALT_CLOSE || p[i] == ALT_OR) && depth == 1 ==>
              AltSubEnd(p, i, end, AltNext, depth) == Some(i)
    ensures !((p[i] == ALT_CLOSE || p[i] == ALT_OR) && depth == 1) ==>
              var d := if p[i] == ALT_OPEN then depth + 1 else if p[i] == ALT_CLOSE then depth - 1 else depth;
              AltSubEnd(p, i, end, AltNext, depth) == AltSubEnd(p, i + 1, end, AltNext, d)
  {
  }
}
