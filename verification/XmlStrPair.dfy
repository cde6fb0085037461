/**
  `StrPair`: a slice of the document's character buffer that is decoded in place, on the first
  read, and terminated.
*/
module XmlStrPair {
  import opened Wrappers
  import opened XmlText

  /** The flag combinations the parser uses: names are taken as they are; text and attribute
      values have line ends normalized and, unless entities are to be left, entities decoded. */
  datatype Mode = Verbatim | Normalized(entities: bool)

  /** What a read of the slice `s` yields. */
  function Reading(s: string, mode: Mode): (r: string)
    ensures |r| <= |s|
  {
    match mode
    case Verbatim => s
    case Normalized(entities) => DecodeFrom(s, 0, 0, entities)
  }

  lemma VerbatimReading(s: string)
    ensures Reading(s, Verbatim) == s
  {
  }

  class StrPair {
    var needsFlush: bool
    var mode: Mode
    var start: nat
    var end: nat

    constructor ()
      ensures !needsFlush && start == end == 0
    {
      needsFlush, mode, start, end := false, Verbatim, 0, 0;
    }

    method Set(from: nat, to: nat, m: Mode)
      modifies this
      ensures needsFlush && mode == m && start == from && end == to
    {
      start, end, mode, needsFlush := from, to, m, true;
    }

    /** The string the pair stands for begins at `r` in the buffer.  A first read decodes it and
        writes the terminating NUL; nothing outside `start..end` is touched. */
    method GetStr(buf: array<char>) returns (r: nat)
      requires start <= end < buf.Length
      modifies this, buf
      ensures r == start == old(start) && end == old(end) && mode == old(mode) && !needsFlush
      ensures !old(needsFlush) ==> buf[..] == old(buf[..])
      ensures old(needsFlush) ==>
                var d := Reading(old(buf[start..end]), old(mode));
                && buf[start..start + |d|] == d
                && buf[start + |d|] == NUL
      ensures forall k :: 0 <= k < buf.Length && !(start <= k <= end) ==> buf[k] == old(buf[k])
    {
      hide Reading;
      if needsFlush {
        ghost var s := buf[start..end];
        buf[end] := NUL;
        needsFlush := false;
        assert buf[start..end] == s;
        if mode.Normalized? {
          Normalize(buf);
        } else {
          VerbatimReading(s);
        }
      }
      r := start;
    }

    /** The decoding part of `GetStr`. */
    method Normalize(buf: array<char>)
      requires start <= end < buf.Length && mode.Normalized? && buf[end] == NUL
      modifies buf
      ensures var d := Reading(old(buf[start..end]), mode);
              && buf[start..start + |d|] == d
              && buf[start + |d|] == NUL
      ensures forall k :: 0 <= k < buf.Length && !(start <= k <= end) ==> buf[k] == old(buf[k])
    {
      hide DecodeStep, DecodeFrom, Reading;
      ghost var s := buf[start..end];
      var q := Rewrite(buf, s);
      buf[q] := NUL;
    }

    /** Before the write position stands what has been decoded, from there on the text as it was. */
    ghost predicate Halfway(buf: array<char>, s: string, q: nat, written: string)
      reads this, buf
    {
      && start <= q <= end < buf.Length && |s| == end - start && |written| == q - start && buf[end] == NUL
      && (forall k :: start <= k < q ==> buf[k] == written[k - start])
      && (forall k :: q <= k < end ==> buf[k] == s[k - start])
    }

    lemma NothingWritten(buf: array<char>, s: string)
      requires start <= end < buf.Length && buf[end] == NUL && s == buf[start..end]
      ensures Halfway(buf, s, start, "")
    {
    }

    /** One turn of the loop adds what the decoder puts out to what has been written. */
    method Turn(buf: array<char>, p: nat, q: nat, ghost s: string, ghost written: string) returns (p': nat, q': nat)
      requires q <= p < end && mode.Normalized? && Halfway(buf, s, q, written)
      modifies buf
      ensures var (taken, bytes) := DecodeStep(s, p - start, q - start, mode.entities);
              p' == p + taken && q' == q + |bytes| && q' <= p' <= end && Halfway(buf, s, q', written + bytes)
      ensures forall k :: 0 <= k < buf.Length && !(q <= k < q') ==> buf[k] == old(buf[k])
    {
      hide DecodeStep;
      p', q' := Step(buf, p, q, s);
    }

    /** The read-and-write loop: everything decoded stands before the final write position. */
    method Rewrite(buf: array<char>, ghost s: string) returns (q: nat)
      requires start <= end < buf.Length && mode.Normalized? && buf[end] == NUL
      requires s == buf[start..end]
      modifies buf
      ensures start <= q <= end && q - start == |Reading(s, mode)|
      ensures Halfway(buf, s, q, Reading(s, mode))
      ensures forall k :: 0 <= k < buf.Length && !(start <= k <= end) ==> buf[k] == old(buf[k])
    {
      hide DecodeStep, DecodeFrom, Reading, DecodesTo, Halfway;
      ghost var written := "";
      var p := start;
      q := start;
      DecodesFirst(s, mode);
      NothingWritten(buf, s);
      while p < end
        invariant start <= q <= p <= end && |written| == q - start
        invariant DecodesTo(s, p - start, q - start, mode.entities, written, Reading(s, mode))
        invariant Halfway(buf, s, q, written)
        invariant forall k :: 0 <= k < buf.Length && !(start <= k <= end) ==> buf[k] == old(buf[k])
        decreases end - p
      {
        DecodesOn(s, p - start, q - start, mode.entities, written, Reading(s, mode));
        ghost var bytes := DecodeStep(s, p - start, q - start, mode.entities).1;
        p, q := Turn(buf, p, q, s, written);
        written := written + bytes;
      }
      DecodesEnd(s, q - start, mode.entities, written, Reading(s, mode));
    }

    /** One turn of the loop: it takes what the decoder takes and writes what the decoder puts out,
        at the write position, and nothing else. */
    method Step(buf: array<char>, p: nat, q: nat, ghost s: string) returns (p': nat, q': nat)
      requires start <= q <= p < end < buf.Length && mode.Normalized? && buf[end] == NUL
      requires |s| == end - start
      requires forall k :: q <= k < end ==> buf[k] == s[k - start]
      modifies buf
      ensures var (taken, bytes) := DecodeStep(s, p - start, q - start, mode.entities);
              && p' == p + taken && q' == q + |bytes| && q' <= p' <= end
              && forall k :: q <= k < q' ==> buf[k] == bytes[k - q]
      ensures forall k :: 0 <= k < buf.Length && !(q <= k < q') ==> buf[k] == old(buf[k])
    {
      hide CharacterRef, EntityAt;
      p', q' := p + 1, q + 1;
      if buf[p] == CR {
        if buf[p + 1] == LF { p' := p + 2; }
        buf[q] := LF;
      } else if buf[p] == LF {
        if buf[p + 1] == CR { p' := p + 2; }
        buf[q] := LF;
      } else if mode.entities && buf[p] == '&' {
        assert buf[p..end] == s[p - start..];
        if buf[p + 1] == '#' {
          match CharacterRef(buf[p..end]) {
            case NotARef =>
              buf[q] := buf[p];
            case Ref(taken, bytes) =>
              p', q' := p + taken, q + |bytes|;
              forall k | q <= k < q' {
                buf[k] := bytes[k - q];
              }
          }
        } else {
          match EntityAt(buf[p..end], 0) {
            case Some(e) =>
              p' := p + |e.pattern| + 2;
              buf[q] := e.value;
            case None =>
          }
        }
      } else {
        buf[q] := buf[p];
      }
    }
  }

  /** With `written` put out, decoding on from `p` gives `all`. */
  ghost predicate DecodesTo(s: string, p: nat, q: nat, entities: bool, written: string, all: string) {
    q <= p <= |s| && |written| == q <= |all| && written + DecodeFrom(s, p, q, entities) == all
  }

  lemma DecodesFirst(s: string, mode: Mode)
    requires mode.Normalized?
    ensures DecodesTo(s, 0, 0, mode.entities, "", Reading(s, mode))
  {
  }

  lemma DecodesOn(s: string, p: nat, q: nat, entities: bool, written: string, all: string)
    requires p < |s| && DecodesTo(s, p, q, entities, written, all)
    ensures var (taken, bytes) := DecodeStep(s, p, q, entities);
            DecodesTo(s, p + taken, q + |bytes|, entities, written + bytes, all)
  {
  }

  lemma DecodesEnd(s: string, q: nat, entities: bool, written: string, all: string)
    requires DecodesTo(s, |s|, q, entities, written, all)
    ensures written == all
  {
  }
}
