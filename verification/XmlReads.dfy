/**
  A document parsed in its buffer, and its strings read afterwards, in any order and any number of
  times: every read gives what the text at that place stands for.
*/
module XmlReads {
  import opened Wrappers
  import opened XmlText
  import opened XmlTree
  import opened XmlParser
  import opened XmlSlices
  import opened XmlParserLoops
  import opened XmlStrPair

  datatype RawDocument = RawParseError(error: XmlError) | RawParsed(nodes: seq<Raw>)

  function DocumentOf(s: string, r: RawDocument): Document {
    match r
    case RawParseError(error) => ParseError(error)
    case RawParsed(nodes) => Parsed(NodesOf(s, nodes))
  }

  /** `XMLDocument::Parse` on a buffer that holds the text and a terminating NUL. */
  method ParseDocumentLoop(buf: array<char>, ghost s: string) returns (r: RawDocument, ghost marks: set<nat>)
    requires Marked(buf, s, {})
    modifies buf
    ensures ParseDocument(s) == DocumentOf(s, r)
    ensures Marked(buf, s, marks)
    ensures r.RawParsed? ==> Ordered(SlicesOf(r.nodes), 0, |s| + 1) && Unmarked(SlicesOf(r.nodes), marks)
  {
    hide Marked, Ordered, Unmarked, SkipWhiteSpace, ParseNodes, ParseDeep, SlicesOf, NodesOf;
    marks := {};
    AheadOfMarks(buf, s, marks, 0);
    CharAhead(buf, s, 0);
    if buf[0] == NUL { return RawParseError(EmptyDocument), marks; }
    var i := SkipWhiteSpaceLoop(buf, s, 0);
    AheadOn(buf, s, 0, i);
    if buf[i] == NUL { return RawParseError(EmptyDocument), marks; }
    var content;
    content, marks := ParseDeepLoop(buf, s, i, 1, marks);
    NodesStayInText(buf, s, content, i, {}, marks);
    match content {
      case RawNodesFail(error) => r := RawParseError(error);
      case RawNodesEnd(nodes) =>
        SlicesInText(buf, s, SlicesOf(nodes), i, |s|, marks);
        r := RawParsed(nodes);
      case RawNodesClosed(nodes, p, endTag) =>
        MadePrefix(buf, s, SlicesOf(nodes), [endTag], i, p, {}, marks);
        MadeIsUpTo(buf, s, SlicesOf(nodes), i, p, {}, marks);
        SlicesInText(buf, s, SlicesOf(nodes), i, p, marks);
        r := RawParsed(nodes);
    }
  }

  lemma SlicesInText(buf: array<char>, s: string, xs: seq<Slice>, i: nat, p: nat, marks: set<nat>)
    requires MadeUpTo(buf, s, xs, i, p, {}, marks)
    ensures Ordered(xs, 0, |s| + 1) && Unmarked(xs, marks)
  {
    hide Marked, Unmarked;
    OrderedWider(xs, i, p + 1, 0, |s| + 1);
  }

  // ----- reading -----

  /** The text of a pair is untouched, or its reading stands there with a NUL behind it. */
  ghost predicate StoredAt(b: string, s: string, start: nat, end: nat, mode: Mode, needsFlush: bool) {
    && start <= end <= |s| && |b| == |s| + 1
    && if needsFlush then b[start..end] == s[start..end]
       else
         var d := Reading(s[start..end], mode);
         b[start..start + |d|] == d && b[start + |d|] == NUL
  }

  ghost predicate Stored(buf: array<char>, s: string, x: StrPair)
    reads buf, x
  {
    StoredAt(buf[..], s, x.start, x.end, x.mode, x.needsFlush)
  }

  /** Different pairs whose slices do not meet. */
  ghost predicate Apart(pairs: seq<StrPair>)
    reads pairs
  {
    forall j, k :: 0 <= j < k < |pairs| ==> pairs[j] != pairs[k] && pairs[j].end < pairs[k].start
  }

  /** A read changes the buffer in its slice and at its terminator only. */
  lemma StoredApart(b: string, b': string, s: string, lo: nat, hi: nat, start: nat, end: nat, mode: Mode,
                    needsFlush: bool)
    requires StoredAt(b, s, start, end, mode, needsFlush) && |b'| == |b| && (hi < start || end < lo)
    requires forall k :: 0 <= k < |b| && !(lo <= k <= hi) ==> b'[k] == b[k]
    ensures StoredAt(b', s, start, end, mode, needsFlush)
  {
    hide Reading;
    var n := if needsFlush then end - start else |Reading(s[start..end], mode)|;
    assert b'[start..start + n] == b[start..start + n];
  }

  /** `GetStr` on a stored pair. */
  method GetStored(buf: array<char>, ghost s: string, x: StrPair)
    requires Stored(buf, s, x)
    modifies buf, x
    ensures Stored(buf, s, x) && !x.needsFlush
    ensures x.start == old(x.start) && x.end == old(x.end) && x.mode == old(x.mode)
    ensures forall k :: 0 <= k < buf.Length && !(x.start <= k <= x.end) ==> buf[k] == old(buf[k])
  {
    hide Reading;
    assert buf[..][x.start..x.end] == buf[x.start..x.end];
    var r := x.GetStr(buf);
    ghost var d := Reading(s[x.start..x.end], x.mode);
    assert buf[..][x.start..x.start + |d|] == buf[x.start..x.start + |d|];
  }

  /** One read: it gives the reading, and every other pair is as it was. */
  method ReadOne(buf: array<char>, ghost s: string, pairs: seq<StrPair>, k: nat)
    requires Apart(pairs) && (forall x :: x in pairs ==> Stored(buf, s, x)) && k < |pairs|
    modifies buf, pairs[k]
    ensures Apart(pairs) && forall x :: x in pairs ==> Stored(buf, s, x)
    ensures var x := pairs[k];
            !x.needsFlush && x.start == old(x.start) && x.end == old(x.end) && x.mode == old(x.mode)
  {
    hide Reading, StoredAt;
    var x := pairs[k];
    ghost var b := buf[..];
    assert x in pairs;
    GetStored(buf, s, x);
    forall y | y in pairs && y != x
      ensures Stored(buf, s, y)
    {
      StoredApart(b, buf[..], s, x.start, x.end, y.start, y.end, y.mode, y.needsFlush);
    }
  }

  /** In whatever order pairs are read, and however often: one that was read stands for its reading, and
      one that was not can still be read. */
  method ReadInAnyOrder(buf: array<char>, ghost s: string, pairs: seq<StrPair>, order: seq<nat>)
    requires Apart(pairs) && (forall x :: x in pairs ==> Stored(buf, s, x))
    requires forall k :: k in order ==> k < |pairs|
    modifies buf, pairs
    ensures forall x :: x in pairs ==> Stored(buf, s, x)
    ensures forall x :: x in pairs ==> x.start == old(x.start) && x.end == old(x.end) && x.mode == old(x.mode)
    ensures forall k :: k in order ==> !pairs[k].needsFlush
  {
    hide Reading, StoredAt;
    for i := 0 to |order|
      invariant Apart(pairs) && forall x :: x in pairs ==> Stored(buf, s, x)
      invariant forall x :: x in pairs ==> x.start == old(x.start) && x.end == old(x.end) && x.mode == old(x.mode)
      invariant forall k :: k in order[..i] ==> k < |pairs| && !pairs[k].needsFlush
    {
      assert order[i] in order && order[..i + 1] == order[..i] + [order[i]];
      ReadOne(buf, s, pairs, order[i]);
    }
    assert order[..|order|] == order;
  }

  // ----- parsing, then reading -----

  /** The modes of the slices of a tree: names are taken as they are. */
  function AttrModes(attrs: seq<RawAttr>): (r: seq<Mode>)
    ensures |r| == |AttrSlices(attrs)|
  {
    if attrs == [] then [] else [Verbatim, Normalized(true)] + AttrModes(attrs[1..])
  }

  function NodeModes(n: Raw): (r: seq<Mode>)
    ensures |r| == |NodeSlices(n)|
    decreases n
  {
    match n
    case RawText(_) => [Normalized(true)]
    case RawElement(_, attrs, kids) => [Verbatim] + (AttrModes(attrs) + ModesOf(kids))
  }

  function ModesOf(ns: seq<Raw>): (r: seq<Mode>)
    ensures |r| == |SlicesOf(ns)|
    decreases ns
  {
    if ns == [] then [] else NodeModes(ns[0]) + ModesOf(ns[1..])
  }

  ghost predicate Pairs(pairs: seq<StrPair>, xs: seq<Slice>, modes: seq<Mode>)
    reads pairs
  {
    |pairs| == |xs| == |modes| && forall k :: 0 <= k < |xs| ==>
      pairs[k].start == xs[k].start && pairs[k].end == xs[k].end && pairs[k].mode == modes[k]
  }

  method MakePairs(xs: seq<Slice>, modes: seq<Mode>) returns (pairs: seq<StrPair>)
    requires |xs| == |modes|
    ensures Pairs(pairs, xs, modes) && fresh(pairs) && forall x :: x in pairs ==> x.needsFlush
    ensures forall j, k :: 0 <= j < k < |pairs| ==> pairs[j] != pairs[k]
  {
    pairs := [];
    for i := 0 to |xs|
      invariant Pairs(pairs, xs[..i], modes[..i]) && fresh(pairs) && forall x :: x in pairs ==> x.needsFlush
      invariant forall j, k :: 0 <= j < k < |pairs| ==> pairs[j] != pairs[k]
    {
      var x := new StrPair();
      x.Set(xs[i].start, xs[i].end, modes[i]);
      pairs := pairs + [x];
    }
    assert xs[..|xs|] == xs && modes[..|modes|] == modes;
  }

  /** After a parse the text of every slice is still in the buffer. */
  lemma StoredAfterParse(buf: array<char>, s: string, xs: seq<Slice>, marks: set<nat>, x: Slice, mode: Mode)
    requires Marked(buf, s, marks) && Ordered(xs, 0, |s| + 1) && Unmarked(xs, marks) && x in xs
    ensures StoredAt(buf[..], s, x.start, x.end, mode, true)
  {
    var k :| 0 <= k < |xs| && xs[k] == x;
    assert buf[..][x.start..x.end] == s[x.start..x.end];
  }

  /** Parse, then read any strings in any order: the tree is that of the text, and every string that was
      read is the one in that tree. */
  method ParseThenRead(buf: array<char>, ghost s: string, order: seq<nat>)
    returns (r: RawDocument, pairs: seq<StrPair>)
    requires Marked(buf, s, {})
    modifies buf
    ensures ParseDocument(s) == DocumentOf(s, r)
    ensures r.RawParsed? ==> Pairs(pairs, SlicesOf(r.nodes), ModesOf(r.nodes))
    ensures r.RawParsed? ==> forall x :: x in pairs ==> Stored(buf, s, x)
    ensures r.RawParsed? ==> forall k :: k in order && k < |pairs| ==> !pairs[k].needsFlush
  {
    hide Marked, Reading, StoredAt, SlicesOf, ModesOf;
    ghost var marks;
    r, marks := ParseDocumentLoop(buf, s);
    pairs := [];
    if r.RawParsed? {
      var xs := SlicesOf(r.nodes);
      pairs := MakePairs(xs, ModesOf(r.nodes));
      forall k | 0 <= k < |pairs|
        ensures Stored(buf, s, pairs[k])
      {
        StoredAfterParse(buf, s, xs, marks, xs[k], pairs[k].mode);
      }
      ReadInAnyOrder(buf, s, pairs, Within(order, |pairs|));
    }
  }

  /** The numbers of pairs that there are. */
  function Within(order: seq<nat>, n: nat): (r: seq<nat>)
    ensures forall k :: k in r <==> k in order && k < n
  {
    if order == [] then []
    else (if order[0] < n then [order[0]] else []) + Within(order[1..], n)
  }
}
