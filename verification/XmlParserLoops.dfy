/**
  The parser at work on the document's buffer, proved against its recursive form over the text.  It
  leaves slices behind, and it reads names while it parses, for duplicate attributes and for end tags,
  so that their terminators are already in the buffer it goes on reading.  A read writes the terminator
  again without harm; the flag that saves this is `StrPair`'s.
*/
module XmlParserLoops {
  import opened Wrappers
  import opened XmlText
  import opened XmlTree
  import opened XmlParser
  import opened XmlSlices

  // ----- reading ahead -----

  /** From `i` on the buffer is still the text. */
  ghost predicate Ahead(buf: array<char>, s: string, i: nat)
    reads buf
  {
    buf.Length == |s| + 1 && forall k :: i <= k <= |s| ==> buf[k] == At(s, k)
  }

  lemma AheadOfMarks(buf: array<char>, s: string, marks: set<nat>, i: nat)
    requires Marked(buf, s, marks) && Below(marks, i)
    ensures Ahead(buf, s, i)
  {
  }

  method SkipWhiteSpaceLoop(buf: array<char>, ghost s: string, i: nat) returns (p: nat)
    requires i <= |s| && Ahead(buf, s, i)
    ensures p == SkipWhiteSpace(s, i)
  {
    p := i;
    while IsWhiteSpace(buf[p])
      invariant i <= p <= |s|
      invariant SkipWhiteSpace(s, i) == SkipWhiteSpace(s, p)
      decreases |s| - p
    {
      p := p + 1;
    }
  }

  method ParseTextLoop(buf: array<char>, ghost s: string, i: nat, tag: char) returns (r: Option<nat>)
    requires i <= |s| && tag != NUL && Ahead(buf, s, i)
    ensures r == ParseText(s, i, tag)
  {
    var p := i;
    while buf[p] != NUL
      invariant i <= p <= |s|
      invariant ParseText(s, i, tag) == ParseText(s, p, tag)
      decreases |s| - p
    {
      if buf[p] == tag { return Some(p); }
      p := p + 1;
    }
    return None;
  }

  method ParseNameLoop(buf: array<char>, ghost s: string, i: nat) returns (r: Option<nat>)
    requires i <= |s| && Ahead(buf, s, i)
    ensures r == ParseName(s, i)
  {
    if buf[i] == NUL || !IsNameStartChar(buf[i]) { return None; }
    var p := i + 1;
    while buf[p] != NUL && IsNameChar(buf[p])
      invariant i < p <= |s|
      invariant NameEnd(s, i + 1) == NameEnd(s, p)
      decreases |s| - p
    {
      p := p + 1;
    }
    return Some(p);
  }

  // ----- reading names back -----

  /** A slice of the text without a NUL, as names are. */
  predicate IsName(s: string, x: Slice) {
    x.start <= x.end <= |s| && NUL !in s[x.start..x.end]
  }

  lemma {:induction false} NameEndsBehindNameChars(s: string, i: nat)
    requires i <= |s|
    ensures forall k :: i <= k < NameEnd(s, i) ==> IsNameChar(s[k])
    decreases |s| - i
  {
    if i < |s| && IsNameChar(s[i]) {
      NameEndsBehindNameChars(s, i + 1);
    }
  }

  lemma ParsedStarts(s: string, i: nat)
    requires i <= |s|
    ensures ParseName(s, i).Some? ==> IsNameStartChar(At(s, i))
    ensures ParseName(s, i).Some? ==> !IsNameChar(At(s, ParseName(s, i).value))
  {
    if ParseName(s, i).Some? {
      NameEndStops(s, i + 1);
    }
  }

  lemma {:induction false} NameEndStops(s: string, i: nat)
    requires i <= |s|
    ensures !IsNameChar(At(s, NameEnd(s, i)))
    decreases |s| - i
  {
    if i < |s| && IsNameChar(s[i]) {
      NameEndStops(s, i + 1);
    }
  }

  lemma ParsedIsName(s: string, i: nat)
    requires i <= |s| && ParseName(s, i).Some?
    ensures IsName(s, Slice(i, ParseName(s, i).value))
  {
    NameEndsBehindNameChars(s, i + 1);
    assert forall k :: i <= k < ParseName(s, i).value ==> IsNameChar(s[k]);
  }

  /** The name is as in the text, and terminated. */
  ghost predicate Readable(buf: array<char>, s: string, x: Slice)
    reads buf
  {
    IsName(s, x) && buf.Length == |s| + 1 && buf[x.end] == NUL
    && forall k :: x.start <= k < x.end ==> buf[k] == s[k]
  }

  /** `GetStr` on a name. */
  method ReadName(buf: array<char>, ghost s: string, x: Slice, ghost marks: set<nat>) returns (ghost marks': set<nat>)
    requires Marked(buf, s, marks) && IsName(s, x) && Unmarked([x], marks)
    modifies buf
    ensures marks' == marks + {x.end} && Marked(buf, s, marks') && Readable(buf, s, x)
  {
    assert x in [x];
    buf[x.end] := NUL;
    marks' := marks + {x.end};
  }

  lemma StaysReadable(buf: array<char>, s: string, x: Slice, marks: set<nat>)
    requires Marked(buf, s, marks) && IsName(s, x) && Unmarked([x], marks) && x.end in marks
    ensures Readable(buf, s, x)
  {
    assert x in [x];
  }

  /** `StringEqual` on two strings that have been read. */
  method SameString(buf: array<char>, ghost s: string, x: Slice, y: Slice) returns (same: bool)
    requires Readable(buf, s, x) && Readable(buf, s, y)
    ensures same <==> Sub(s, x) == Sub(s, y)
  {
    var k := 0;
    while buf[x.start + k] != NUL && buf[x.start + k] == buf[y.start + k]
      invariant x.start + k <= x.end && y.start + k <= y.end
      invariant s[x.start..x.start + k] == s[y.start..y.start + k]
      decreases x.end - x.start - k
    {
      NotAtEnd(s, x, k);
      NotAtEnd(s, y, k);
      AgreeOneMore(s, x.start, y.start, k);
      k := k + 1;
    }
    same := buf[x.start + k] == buf[y.start + k];
    SameExactly(s, x, y, k);
    NotAtEnd(s, x, k);
    NotAtEnd(s, y, k);
  }

  lemma AgreeOneMore(s: string, a: nat, b: nat, k: nat)
    requires a + k < |s| && b + k < |s| && s[a..a + k] == s[b..b + k] && s[a + k] == s[b + k]
    ensures s[a..a + k + 1] == s[b..b + k + 1]
  {
    assert s[a..a + k + 1] == s[a..a + k] + [s[a + k]];
    assert s[b..b + k + 1] == s[b..b + k] + [s[b + k]];
  }

  lemma NotAtEnd(s: string, x: Slice, k: nat)
    requires IsName(s, x) && x.start + k <= x.end
    ensures x.start + k < x.end ==> s[x.start + k] != NUL
  {
    assert x.start + k < x.end ==> s[x.start..x.end][k] == s[x.start + k];
  }

  /** Where the strings agree up to `k`, they are the same when both end there. */
  lemma SameExactly(s: string, x: Slice, y: Slice, k: nat)
    requires IsName(s, x) && IsName(s, y) && x.start + k <= x.end && y.start + k <= y.end
    requires s[x.start..x.start + k] == s[y.start..y.start + k]
    ensures x.start + k == x.end && y.start + k == y.end ==> Sub(s, x) == Sub(s, y)
    ensures (x.start + k == x.end) != (y.start + k == y.end) ==> Sub(s, x) != Sub(s, y)
    ensures x.start + k < x.end && y.start + k < y.end && s[x.start + k] != s[y.start + k] ==> Sub(s, x) != Sub(s, y)
  {
    if x.start + k < x.end && y.start + k < y.end {
      assert Sub(s, x)[k] == s[x.start + k] && Sub(s, y)[k] == s[y.start + k];
    }
  }

  // ----- attributes -----

  datatype RawAttrResult = RawAttrFails | RawAttrParsed(p: nat, attr: RawAttr)

  lemma PairInOrder(x: Slice, y: Slice, lo: nat, hi: nat)
    requires lo <= x.start <= x.end < y.start <= y.end < hi
    ensures Ordered([x, y], lo, hi)
  {
  }

  /** `XMLAttribute::ParseDeep`. */
  method ParseAttributeBuf(buf: array<char>, ghost s: string, i: nat) returns (r: RawAttrResult)
    requires i <= |s| && Ahead(buf, s, i)
    ensures match r
            case RawAttrFails => ParseAttribute(s, i) == AttrFails
            case RawAttrParsed(p, a) =>
              && i < p <= |s| && ParseAttribute(s, i) == AttrParsed(p, AttrOf(s, a))
              && Ordered([a.name, a.value], i, p) && IsName(s, a.name) && IsNameStartChar(At(s, a.name.start))
  {
    ParsedStarts(s, i);
    hide ParseName, ParseText, SkipWhiteSpace, Decode, IsName, IsNameChar, IsNameStartChar, IsWhiteSpace, Ordered;
    var nameEnd := ParseNameLoop(buf, s, i);
    if nameEnd.None? || buf[nameEnd.value] == NUL { return RawAttrFails; }
    ParsedIsName(s, i);
    var eq := SkipWhiteSpaceLoop(buf, s, nameEnd.value);
    if buf[eq] != '=' { return RawAttrFails; }
    var quote := SkipWhiteSpaceLoop(buf, s, eq + 1);
    if buf[quote] != '"' && buf[quote] != '\'' { return RawAttrFails; }
    var end := ParseTextLoop(buf, s, quote + 1, buf[quote]);
    if end.None? { return RawAttrFails; }
    PairInOrder(Slice(i, nameEnd.value), Slice(quote + 1, end.value), i, end.value + 1);
    return RawAttrParsed(end.value + 1, RawAttr(Slice(i, nameEnd.value), Slice(quote + 1, end.value)));
  }

  /** The names of the attributes are names. */
  predicate Named(s: string, attrs: seq<RawAttr>) {
    forall a :: a in attrs ==> IsName(s, a.name) && IsNameStartChar(At(s, a.name.start))
  }

  lemma {:induction false} NamesAmong(attrs: seq<RawAttr>, j: nat)
    requires j < |attrs|
    ensures attrs[j].name in AttrSlices(attrs)
  {
    if j > 0 {
      NamesAmong(attrs[1..], j - 1);
    }
  }

  lemma UnmarkedMember(xs: seq<Slice>, marks: set<nat>, x: Slice)
    requires Unmarked(xs, marks) && x in xs
    ensures Unmarked([x], marks)
  {
  }

  /** While attributes are looked at: nothing but terminators of names has been written since `first`. */
  ghost predicate Looking(buf: array<char>, s: string, attrs: seq<RawAttr>, name: Slice, lo: nat, hi: nat,
                          first: set<nat>, marks: set<nat>)
    reads buf
  {
    && Marked(buf, s, marks) && Named(s, attrs) && IsName(s, name) && Unmarked([name], marks) && name.end in marks
    && Ordered(AttrSlices(attrs), lo, name.start) && name.start <= hi
    && Unmarked(AttrSlices(attrs), marks) && Added(first, marks, lo, hi)
  }

  /** One attribute's name is read and compared. */
  method LookAt(buf: array<char>, ghost s: string, attrs: seq<RawAttr>, j: nat, name: Slice, ghost lo: nat,
                ghost hi: nat, ghost first: set<nat>, ghost marks: set<nat>)
    returns (same: bool, ghost marks': set<nat>)
    requires Looking(buf, s, attrs, name, lo, hi, first, marks) && j < |attrs|
    modifies buf
    ensures Looking(buf, s, attrs, name, lo, hi, first, marks')
    ensures same <==> Sub(s, attrs[j].name) == Sub(s, name)
  {
    hide Marked, Unmarked, Ordered, Readable, IsName, Added;
    var x := attrs[j].name;
    assert attrs[j] in attrs;
    NamesAmong(attrs, j);
    UnmarkedMember(AttrSlices(attrs), marks, x);
    MarkedInOrder(AttrSlices(attrs), lo, name, x, hi, first, marks);
    marks' := ReadName(buf, s, x, marks);
    StaysReadable(buf, s, name, marks');
    same := SameString(buf, s, x, name);
  }

  /** `Attribute(name)`: the names of the attributes that are looked at are read. */
  method HasNameBuf(buf: array<char>, ghost s: string, attrs: seq<RawAttr>, name: Slice, ghost lo: nat, ghost hi: nat,
                    ghost first: set<nat>, ghost marks: set<nat>)
    returns (found: bool, ghost marks': set<nat>)
    requires Looking(buf, s, attrs, name, lo, hi, first, marks)
    modifies buf
    ensures Looking(buf, s, attrs, name, lo, hi, first, marks')
    ensures found <==> HasName(AttrsOf(s, attrs), Sub(s, name))
  {
    hide Looking;
    marks' := marks;
    for j := 0 to |attrs|
      invariant Looking(buf, s, attrs, name, lo, hi, first, marks')
      invariant forall k :: 0 <= k < j ==> Sub(s, attrs[k].name) != Sub(s, name)
    {
      found, marks' := LookAt(buf, s, attrs, j, name, lo, hi, first, marks');
      if found {
        assert AttrsOf(s, attrs)[j].name == Sub(s, name);
        return;
      }
    }
    return false, marks';
  }

  lemma AddedNone(marks: set<nat>, lo: nat, hi: nat)
    ensures Added(marks, marks, lo, hi)
  {
  }

  /** A terminator of one of the slices before `name` is in no slice. */
  lemma MarkedInOrder(xs: seq<Slice>, lo: nat, name: Slice, x: Slice, hi: nat, marks: set<nat>, was: set<nat>)
    requires Ordered(xs, lo, name.start) && name.start <= hi && x in xs && Unmarked(xs, was) && Unmarked([name], was)
    requires Added(marks, was, lo, hi)
    ensures Unmarked(xs, was + {x.end}) && Unmarked([name], was + {x.end}) && Added(marks, was + {x.end}, lo, hi)
  {
    EndsOutside(xs, lo, name.start, was, x);
  }

  /** The attributes `attrs` have been read between `i` and `p`. */
  ghost predicate AttrsRead(buf: array<char>, s: string, attrs: seq<RawAttr>, i: nat, p: nat, first: set<nat>,
                            marks: set<nat>)
    reads buf
  {
    && i <= p <= |s| && Marked(buf, s, marks) && Below(first, i) && Added(first, marks, i, p)
    && Named(s, attrs) && Ordered(AttrSlices(attrs), i, p) && Unmarked(AttrSlices(attrs), marks)
  }

  lemma AttrsReadAtFirst(buf: array<char>, s: string, i: nat, marks: set<nat>)
    requires i <= |s| && Marked(buf, s, marks) && Below(marks, i)
    ensures AttrsRead(buf, s, [], i, i, marks, marks)
  {
  }

  lemma AttrsReadAhead(buf: array<char>, s: string, attrs: seq<RawAttr>, i: nat, p: nat, first: set<nat>,
                       marks: set<nat>)
    requires AttrsRead(buf, s, attrs, i, p, first, marks)
    ensures Ahead(buf, s, p) && Below(marks, p)
  {
  }

  lemma AttrsReadOn(buf: array<char>, s: string, attrs: seq<RawAttr>, i: nat, p: nat, q: nat, first: set<nat>,
                    marks: set<nat>)
    requires AttrsRead(buf, s, attrs, i, p, first, marks) && p <= q <= |s|
    ensures AttrsRead(buf, s, attrs, i, q, first, marks)
  {
    hide Marked;
  }

  /** A parsed attribute's name is read for the first time. */
  lemma LookingAtFirst(buf: array<char>, s: string, attrs: seq<RawAttr>, i: nat, p: nat, q: nat, a: RawAttr,
                       first: set<nat>, marks: set<nat>)
    requires Named(s, attrs) && Ordered(AttrSlices(attrs), i, p) && Unmarked(AttrSlices(attrs), marks)
    requires Below(first, i) && Added(first, marks, i, p) && i <= p
    requires Ordered([a.name, a.value], p, q) && IsName(s, a.name)
    requires Marked(buf, s, marks + {a.name.end})
    ensures Looking(buf, s, attrs, a.name, i, a.value.start, first, marks + {a.name.end})
  {
    hide Marked;
    var pair := [a.name, a.value];
    assert pair[0] == a.name && pair[1] == a.value;
  }

  lemma LookedUp(buf: array<char>, s: string, attrs: seq<RawAttr>, i: nat, p: nat, q: nat, a: RawAttr, first: set<nat>,
                 marks: set<nat>)
    requires Looking(buf, s, attrs, a.name, i, a.value.start, first, marks)
    requires i <= p && q <= |s| && Below(first, i) && Ordered([a.name, a.value], p, q)
    requires IsNameStartChar(At(s, a.name.start))
    requires Ordered(AttrSlices(attrs), i, p)
    ensures AttrsRead(buf, s, attrs + [a], i, q, first, marks)
  {
    hide Marked, IsName;
    var pair := [a.name, a.value];
    assert pair[0] == a.name && pair[1] == a.value;
    AttrSlicesMore(attrs, a);
    OrderedBoth(AttrSlices(attrs), pair, i, p, q);
    forall x, k | x in pair && k in marks
      ensures !(x.start <= k < x.end)
    {
      assert a.name in [a.name];
    }
    UnmarkedBoth(AttrSlices(attrs), pair, marks);
  }

  /** One attribute: none is an error, be it a duplicate. */
  method AttributeStep(buf: array<char>, ghost s: string, read: seq<RawAttr>, ghost i: nat, p: nat,
                       ghost first: set<nat>, ghost marks: set<nat>)
    returns (r: RawAttrResult, ghost marks': set<nat>)
    requires AttrsRead(buf, s, read, i, p, first, marks)
    modifies buf
    ensures Marked(buf, s, marks') && Added(first, marks', i, |s| + 1)
    ensures match r
            case RawAttrFails =>
              ParseAttribute(s, p) == AttrFails ||
              (ParseAttribute(s, p).AttrParsed? && HasName(AttrsOf(s, read), ParseAttribute(s, p).attr.name))
            case RawAttrParsed(q, a) =>
              && p < q && AttrsRead(buf, s, read + [a], i, q, first, marks')
              && ParseAttribute(s, p) == AttrParsed(q, AttrOf(s, a)) && !HasName(AttrsOf(s, read), AttrOf(s, a).name)
  {
    hide Marked, Ordered, Unmarked, IsName, IsNameStartChar, ParseAttribute, HasName, Looking, Ahead;
    marks' := marks;
    AttrsReadAhead(buf, s, read, i, p, first, marks);
    AddedWider(first, marks, i, p, i, |s| + 1);
    r := ParseAttributeBuf(buf, s, p);
    if r.RawAttrFails? { return; }
    var a := r.attr;
    NameIsAhead(a, p, r.p, marks);
    marks' := ReadName(buf, s, a.name, marks);
    LookingAtFirst(buf, s, read, i, p, r.p, a, first, marks);
    var found;
    found, marks' := HasNameBuf(buf, s, read, a.name, i, a.value.start, first, marks');
    LookedUp(buf, s, read, i, p, r.p, a, first, marks');
    AddedWider(first, marks', i, r.p, i, |s| + 1);
    if found {
      r := RawAttrFails;
    }
  }

  lemma NameIsAhead(a: RawAttr, p: nat, q: nat, marks: set<nat>)
    requires Ordered([a.name, a.value], p, q) && Below(marks, p)
    ensures Unmarked([a.name], marks)
  {
    assert [a.name, a.value][0] == a.name;
  }

  datatype RawAttrsResult = RawAttrsFail(error: XmlError) | RawAttrsParsed(p: nat, attrs: seq<RawAttr>, closed: bool)

  method ParseAttributesLoop(buf: array<char>, ghost s: string, i: nat, ghost marks: set<nat>)
    returns (r: RawAttrsResult, ghost marks': set<nat>)
    requires i <= |s| && Marked(buf, s, marks) && Below(marks, i)
    modifies buf
    ensures Marked(buf, s, marks') && Added(marks, marks', i, |s| + 1)
    ensures match r
            case RawAttrsFail(error) => ParseAttributes(s, i, []) == AttrsFail(error)
            case RawAttrsParsed(p, attrs, closed) =>
              && i < p && AttrsRead(buf, s, attrs, i, p, marks, marks')
              && ParseAttributes(s, i, []) == AttrsParsed(p, AttrsOf(s, attrs), closed)
  {
    hide Marked, Ordered, Unmarked, ParseAttribute, HasName, Ahead, AttrsRead;
    var p: nat, read: seq<RawAttr> := i, [];
    marks' := marks;
    AttrsReadAtFirst(buf, s, i, marks);
    AddedNone(marks, i, |s| + 1);
    while true
      invariant i <= p <= |s| && AttrsRead(buf, s, read, i, p, marks, marks')
      invariant Marked(buf, s, marks') && Added(marks, marks', i, |s| + 1)
      invariant ParseAttributes(s, i, []) == ParseAttributes(s, p, AttrsOf(s, read))
      decreases |s| - p
    {
      AttrsReadAhead(buf, s, read, i, p, marks, marks');
      var q := SkipWhiteSpaceLoop(buf, s, p);
      SkipTwice(s, p, q, AttrsOf(s, read));
      AttrsReadOn(buf, s, read, i, p, q, marks, marks');
      AttrsReadAhead(buf, s, read, i, q, marks, marks');
      p := q;
      CharAhead(buf, s, p);
      if buf[p] == NUL { return RawAttrsFail(ParsingElement), marks'; }
      if IsNameStartChar(buf[p]) {
        var step;
        step, marks' := AttributeStep(buf, s, read, i, p, marks, marks');
        if step.RawAttrFails? { return RawAttrsFail(ParsingAttribute), marks'; }
        assert AttrsOf(s, read + [step.attr]) == AttrsOf(s, read) + [AttrOf(s, step.attr)];
        p, read := step.p, read + [step.attr];
      } else if buf[p] == '>' {
        AttrsReadOn(buf, s, read, i, p, p + 1, marks, marks');
        return RawAttrsParsed(p + 1, read, false), marks';
      } else if buf[p] == '/' && buf[p + 1] == '>' {
        CharAhead(buf, s, p + 1);
        AttrsReadOn(buf, s, read, i, p, p + 2, marks, marks');
        return RawAttrsParsed(p + 2, read, true), marks';
      } else {
        return RawAttrsFail(ParsingElement), marks';
      }
    }
  }

  lemma CharAhead(buf: array<char>, s: string, p: nat)
    requires Ahead(buf, s, p) && p <= |s|
    ensures buf.Length == |s| + 1 && buf[p] == At(s, p) && (p < |s| ==> buf[p + 1] == At(s, p + 1))
  {
  }

  lemma SkipTwice(s: string, p: nat, q: nat, read: seq<Attr>)
    requires p <= |s| && q == SkipWhiteSpace(s, p)
    ensures ParseAttributes(s, p, read) == ParseAttributes(s, q, read) && SkipWhiteSpace(s, q) == q
  {
  }

  // ----- elements and nodes -----

  datatype RawElementResult =
    | RawElementFails(error: XmlError)
    | RawElementParsed(p: nat, node: Raw, closing: ClosingType, endTag: Option<Slice>)

  datatype RawNodesResult =
    | RawNodesFail(error: XmlError)
    | RawNodesEnd(nodes: seq<Raw>)
    | RawNodesClosed(nodes: seq<Raw>, p: nat, endTag: Slice)

  function EndTagOf(s: string, x: Option<Slice>): Option<string> {
    if x.Some? then Some(Sub(s, x.value)) else None
  }

  /** The slices of an element, and the end tag that closed it. */
  function WithEndTag(n: Raw, endTag: Option<Slice>): seq<Slice> {
    NodeSlices(n) + if endTag.Some? then [endTag.value] else []
  }

  /** The element as a result about the text. */
  function ElementOf(s: string, r: RawElementResult): ElementResult {
    match r
    case RawElementFails(error) => ElementFails(error)
    case RawElementParsed(p, node, closing, endTag) =>
      ElementParsed(p, NodeOf(s, node), closing, EndTagOf(s, endTag))
  }

  function NodesResultOf(s: string, r: RawNodesResult): NodesResult {
    match r
    case RawNodesFail(error) => NodesFail(error)
    case RawNodesEnd(nodes) => NodesEnd(NodesOf(s, nodes))
    case RawNodesClosed(nodes, p, endTag) => NodesClosed(NodesOf(s, nodes), p, Sub(s, endTag))
  }

  /** What parsing an element from `i` on leaves behind. */
  ghost predicate ElementMade(buf: array<char>, s: string, r: RawElementResult, i: nat, first: set<nat>,
                              marks: set<nat>)
    reads buf
  {
    match r
    case RawElementFails(_) => Marked(buf, s, marks) && Added(first, marks, i, |s| + 1)
    case RawElementParsed(p, node, closing, endTag) =>
      && node.RawElement? && IsName(s, node.name) && (endTag.Some? ==> IsName(s, endTag.value))
      && i < p && Made(buf, s, WithEndTag(node, endTag), i, p, first, marks)
  }

  ghost predicate NodesMade(buf: array<char>, s: string, r: RawNodesResult, i: nat, first: set<nat>, marks: set<nat>)
    reads buf
  {
    match r
    case RawNodesFail(_) => Marked(buf, s, marks) && Added(first, marks, i, |s| + 1)
    case RawNodesEnd(nodes) => MadeUpTo(buf, s, SlicesOf(nodes), i, |s|, first, marks)
    case RawNodesClosed(nodes, p, endTag) =>
      && IsName(s, endTag) && i < p && Made(buf, s, SlicesOf(nodes) + [endTag], i, p, first, marks)
  }

  lemma {:induction false} AttrSlicesStart(attrs: seq<RawAttr>)
    ensures attrs != [] ==> |AttrSlices(attrs)| > 0 && AttrSlices(attrs)[0] == attrs[0].name
  {
  }

  /** The first attribute does not begin where the element's name ends. */
  lemma AttrsBehindName(s: string, attrs: seq<RawAttr>, end: nat, p: nat)
    requires Named(s, attrs) && Ordered(AttrSlices(attrs), end, p) && !IsNameChar(At(s, end)) && end < p
    ensures Ordered(AttrSlices(attrs), end + 1, p)
  {
    AttrSlicesStart(attrs);
    if attrs != [] {
      assert attrs[0] in attrs;
      var xs := AttrSlices(attrs);
      forall j | 0 <= j < |xs|
        ensures end + 1 <= xs[j].start
      {
        assert j > 0 ==> xs[0].end < xs[j].start;
      }
    }
  }

  /** The name and the attributes of an element. */
  lemma TagMade(buf: array<char>, s: string, i: nat, name: Slice, attrs: seq<RawAttr>, p: nat, first: set<nat>,
                marks: set<nat>)
    requires AttrsRead(buf, s, attrs, name.end, p, first, marks) && name.end < p && i <= name.start <= name.end
    requires Below(first, i) && !IsNameChar(At(s, name.end))
    ensures Made(buf, s, [name] + AttrSlices(attrs), i, p, first, marks)
  {
    hide Marked, IsNameChar, Named;
    AttrsBehindName(s, attrs, name.end, p);
    OrderedOne(name, i, name.end + 1);
    OrderedBoth([name], AttrSlices(attrs), i, name.end + 1, p);
    UnmarkedBoth([name], AttrSlices(attrs), marks);
  }

  lemma BodylessMade(buf: array<char>, s: string, name: Slice, attrs: seq<RawAttr>, i: nat, p: nat, first: set<nat>,
                     marks: set<nat>)
    requires Made(buf, s, [name] + AttrSlices(attrs), i, p, first, marks)
    ensures Made(buf, s, WithEndTag(RawElement(name, attrs, []), None), i, p, first, marks)
  {
    hide Made;
    assert AttrSlices(attrs) + SlicesOf([]) == AttrSlices(attrs);
    assert WithEndTag(RawElement(name, attrs, []), None) == [name] + AttrSlices(attrs);
  }

  lemma ContentMade(buf: array<char>, s: string, name: Slice, attrs: seq<RawAttr>, kids: seq<Raw>, endTag: Slice,
                    i: nat, p: nat, q: nat, first: set<nat>, mid: set<nat>, marks: set<nat>)
    requires Ordered([name] + AttrSlices(attrs), i, p) && Unmarked([name] + AttrSlices(attrs), mid)
    requires Below(first, i) && Added(first, mid, i, p) && i <= p
    requires Made(buf, s, SlicesOf(kids) + [endTag], p, q, mid, marks)
    ensures Made(buf, s, WithEndTag(RawElement(name, attrs, kids), Some(endTag)), i, q, first, marks)
  {
    MadeBoth(buf, s, [name] + AttrSlices(attrs), SlicesOf(kids) + [endTag], i, p, p, q, first, mid, marks);
    hide Made;
    assert WithEndTag(RawElement(name, attrs, kids), Some(endTag)) ==
           [name] + AttrSlices(attrs) + (SlicesOf(kids) + [endTag]);
  }

  /** `XMLElement::ParseDeep`. */
  method ParseElementRec(buf: array<char>, ghost s: string, i: nat, depth: nat, ghost marks: set<nat>)
    returns (r: RawElementResult, ghost marks': set<nat>)
    requires i <= |s| && Marked(buf, s, marks) && Below(marks, i)
    modifies buf
    ensures ParseElement(s, i, depth) == ElementOf(s, r) && ElementMade(buf, s, r, i, marks, marks')
    decreases |s| - i, 0
  {
    hide SkipWhiteSpace, ParseName, ParseAttributes, ParseNodes, Marked, Ahead, Made, AttrsRead, IsName;
    hide Unmarked, Ordered;
    marks' := marks;
    AddedNone(marks, i, |s| + 1);
    AheadOfMarks(buf, s, marks, i);
    var start := SkipWhiteSpaceLoop(buf, s, i);
    AheadOn(buf, s, i, start);
    var closing := OPEN;
    if buf[start] == '/' {
      closing := CLOSING;
      start := start + 1;
      AheadOn(buf, s, i, start);
    }
    var end := ParseNameLoop(buf, s, start);
    if end.None? { return RawElementFails(Parsing), marks'; }
    ParsedStarts(s, start);
    ParsedIsName(s, start);
    var attrs;
    attrs, marks' := ParseAttributesLoop(buf, s, end.value, marks);
    AddedWider(marks, marks', end.value, |s| + 1, i, |s| + 1);
    if attrs.RawAttrsFail? { return RawElementFails(attrs.error), marks'; }
    if attrs.closed { closing := CLOSED; }
    var name, p := Slice(start, end.value), attrs.p;
    TagMade(buf, s, i, name, attrs.attrs, p, marks, marks');
    AttrsReadAhead(buf, s, attrs.attrs, end.value, p, marks, marks');
    CharAhead(buf, s, p);
    if buf[p] == NUL || closing != OPEN {
      BodylessMade(buf, s, name, attrs.attrs, i, p, marks, marks');
      return RawElementParsed(p, RawElement(name, attrs.attrs, []), closing, None), marks';
    }
    ghost var mid := marks';
    MadeParts(buf, s, [name] + AttrSlices(attrs.attrs), i, p, marks, mid);
    var content;
    content, marks' := ParseDeepLoop(buf, s, p, depth + 1, marks');
    NodesStayInText(buf, s, content, p, mid, marks');
    Later(marks, mid, marks', i, p, |s| + 1);
    match content {
      case RawNodesFail(error) => r := RawElementFails(error);
      case RawNodesEnd(_) => r := RawElementFails(Parsing);
      case RawNodesClosed(nodes, q, endTag) =>
        ContentMade(buf, s, name, attrs.attrs, nodes, endTag, i, p, q, marks, mid, marks');
        r := RawElementParsed(q, RawElement(name, attrs.attrs, nodes), OPEN, Some(endTag));
    }
  }

  /** Whatever comes of it, only terminators in the rest of the text have been written. */
  lemma NodesStayInText(buf: array<char>, s: string, r: RawNodesResult, i: nat, first: set<nat>, marks: set<nat>)
    requires NodesMade(buf, s, r, i, first, marks) && i <= |s|
    ensures Marked(buf, s, marks) && Added(first, marks, i, |s| + 1)
  {
    hide Marked, Ordered, Unmarked;
  }

  lemma MadeParts(buf: array<char>, s: string, xs: seq<Slice>, i: nat, p: nat, first: set<nat>, marks: set<nat>)
    requires Made(buf, s, xs, i, p, first, marks)
    ensures i <= p <= |s| && Marked(buf, s, marks) && Below(first, i) && Added(first, marks, i, p)
    ensures Ordered(xs, i, p) && Unmarked(xs, marks) && Below(marks, p)
  {
    hide Marked, Ordered, Unmarked;
  }

  lemma Later(first: set<nat>, mid: set<nat>, marks: set<nat>, i: nat, p: nat, hi: nat)
    requires Added(first, mid, i, p) && Added(mid, marks, p, hi) && i <= p <= hi
    ensures Added(first, marks, i, hi)
  {
  }

  lemma AheadOn(buf: array<char>, s: string, i: nat, p: nat)
    requires Ahead(buf, s, i) && i <= p <= |s|
    ensures Ahead(buf, s, p) && buf[p] == At(s, p)
  {
  }

  datatype RawStep = RawStop(result: RawNodesResult) | RawNext(node: Raw, p: nat)

  /** What one turn of the loop of `XMLNode::ParseDeep` leaves behind: an element lies behind the bracket
      at `i`, a text reaches up to the next bracket. */
  ghost predicate StepMade(buf: array<char>, s: string, r: RawStep, i: nat, first: set<nat>, marks: set<nat>)
    reads buf
  {
    match r
    case RawStop(RawNodesFail(_)) => Marked(buf, s, marks) && Added(first, marks, i, |s| + 1)
    case RawStop(RawNodesEnd(nodes)) => nodes == [] && marks == first && Marked(buf, s, marks)
    case RawStop(RawNodesClosed(nodes, p, endTag)) =>
      nodes == [] && IsName(s, endTag) && i < p && Made(buf, s, [endTag], i + 1, p, first, marks)
    case RawNext(RawElement(name, attrs, kids), p) =>
      i < p && Made(buf, s, NodeSlices(RawElement(name, attrs, kids)), i + 1, p, first, marks)
    case RawNext(RawText(value), p) =>
      && value == Slice(i, p) && i < p <= |s| && At(s, i) != '<' && At(s, p) == '<'
      && marks == first && Marked(buf, s, marks)
  }

  /** One more node. */
  lemma MadeOneMore(buf: array<char>, s: string, done: seq<Raw>, node: Raw, i: nat, p: nat, q: nat, first: set<nat>,
                    mid: set<nat>, marks: set<nat>)
    requires i <= p <= |s| && Below(first, i) && Added(first, mid, i, p)
    requires Ordered(SlicesOf(done), i, p + 1) && Unmarked(SlicesOf(done), mid)
    requires Ordered(SlicesOf(done), i, p) || At(s, p) == '<'
    requires StepMade(buf, s, RawNext(node, q), p, mid, marks)
    ensures MadeUpTo(buf, s, SlicesOf(done + [node]), i, q, first, marks)
  {
    hide Marked;
    SlicesOfMore(done, node);
    var xs, ys := SlicesOf(done), NodeSlices(node);
    if node.RawElement? {
      AddedWider(first, mid, i, p, i, p + 1);
      MadeBoth(buf, s, xs, ys, i, p + 1, p + 1, q, first, mid, marks);
      MadeIsUpTo(buf, s, xs + ys, i, q, first, marks);
    } else {
      OrderedOne(node.value, p, q + 1);
      OrderedBoth(xs, ys, i, p, q + 1);
      UnmarkedAhead(ys, p, q + 1, mid);
      UnmarkedBoth(xs, ys, mid);
      AddedWider(first, mid, i, p, i, q);
    }
  }

  /** An end tag stops the loop. */
  lemma MadeClosed(buf: array<char>, s: string, done: seq<Raw>, endTag: Slice, i: nat, p: nat, q: nat, first: set<nat>,
                   mid: set<nat>, marks: set<nat>)
    requires i <= p <= |s| && Below(first, i) && Added(first, mid, i, p)
    requires Ordered(SlicesOf(done), i, p + 1) && Unmarked(SlicesOf(done), mid)
    requires StepMade(buf, s, RawStop(RawNodesClosed([], q, endTag)), p, mid, marks)
    ensures NodesMade(buf, s, RawNodesClosed(done, q, endTag), i, first, marks)
  {
    hide Marked;
    AddedWider(first, mid, i, p, i, p + 1);
    MadeBoth(buf, s, SlicesOf(done), [endTag], i, p + 1, p + 1, q, first, mid, marks);
  }

  lemma MadeToTheEnd(buf: array<char>, s: string, xs: seq<Slice>, i: nat, p: nat, first: set<nat>, marks: set<nat>)
    requires MadeUpTo(buf, s, xs, i, p, first, marks) && At(s, p) == NUL
    ensures MadeUpTo(buf, s, xs, i, |s|, first, marks)
  {
    hide Marked, Unmarked;
  }

  /** Puts the nodes inserted so far before what the rest of the loop yields. */
  function After(done: seq<Xml>, r: NodesResult): NodesResult {
    match r
    case NodesFail(_) => r
    case NodesEnd(nodes) => NodesEnd(done + nodes)
    case NodesClosed(nodes, p, endTag) => NodesClosed(done + nodes, p, endTag)
  }

  lemma AfterPrepend(done: seq<Xml>, n: Xml, r: NodesResult)
    ensures After(done, Prepend(n, r)) == After(done + [n], r)
  {
  }

  lemma AfterNothing(r: NodesResult)
    ensures After([], r) == r
  {
  }

  lemma AtTheEnd(s: string, p: nat, depth: nat)
    requires p <= |s| && At(s, p) == NUL
    ensures ParseNodes(s, p, depth) == NodesEnd([])
  {
  }

  /** The loop of `XMLNode::ParseDeep`, which appends each parsed node to the children and stops
      at the end tag a child hands up. */
  method ParseDeepLoop(buf: array<char>, ghost s: string, i: nat, depth: nat, ghost marks: set<nat>)
    returns (r: RawNodesResult, ghost marks': set<nat>)
    requires i <= |s| && Marked(buf, s, marks) && Below(marks, i)
    modifies buf
    ensures ParseDeep(s, i, depth) == NodesResultOf(s, r) && NodesMade(buf, s, r, i, marks, marks')
    decreases |s| - i, 3
  {
    hide SkipWhiteSpace, ParseElement, ParseText, ParseNodes, Decode, Marked, Ordered, Unmarked, StepMade;
    hide NodesOf, SlicesOf;
    marks' := marks;
    AddedNone(marks, i, |s| + 1);
    if depth == MAX_ELEMENT_DEPTH { return RawNodesFail(ElementDepthExceeded), marks'; }
    var p: nat, done: seq<Raw> := i, [];
    Nothing(s);
    MadeNothing(buf, s, i, marks);
    AfterNothing(ParseNodes(s, i, depth));
    AheadOfMarks(buf, s, marks', p);
    while buf[p] != NUL
      invariant i <= p <= |s| && MadeUpTo(buf, s, SlicesOf(done), i, p, marks, marks') && Ahead(buf, s, p)
      invariant ParseNodes(s, i, depth) == After(NodesOf(s, done), ParseNodes(s, p, depth))
      decreases |s| - p
    {
      MadeAhead(buf, s, SlicesOf(done), i, p, marks, marks');
      ghost var mid := marks';
      var step;
      step, marks' := ParseNodeStep(buf, s, p, depth, marks');
      match step {
        case RawStop(result) =>
          r := Stopped(buf, s, done, result, i, p, depth, marks, mid, marks');
          return;
        case RawNext(node, q) =>
          MadeOneMore(buf, s, done, node, i, p, q, marks, mid, marks');
          AfterPrepend(NodesOf(s, done), NodeOf(s, node), ParseNodes(s, q, depth));
          NodesOfMore(s, done, node);
          p, done := q, done + [node];
          MadeAhead(buf, s, SlicesOf(done), i, p, marks, marks');
          AheadOfMarks(buf, s, marks', p);
      }
    }
    AtTheEnd(s, p, depth);
    MadeToTheEnd(buf, s, SlicesOf(done), i, p, marks, marks');
    NothingMore(NodesOf(s, done));
    return RawNodesEnd(done), marks';
  }

  lemma Nothing(s: string)
    ensures NodesOf(s, []) == [] && SlicesOf([]) == []
  {
  }

  lemma NothingMore(ns: seq<Xml>)
    ensures After(ns, NodesEnd([])) == NodesEnd(ns)
  {
  }

  /** How the loop stops, with the nodes before. */
  method Stopped(buf: array<char>, ghost s: string, done: seq<Raw>, result: RawNodesResult, ghost i: nat, ghost p: nat,
                 ghost depth: nat, ghost first: set<nat>, ghost mid: set<nat>, ghost marks: set<nat>)
    returns (r: RawNodesResult)
    requires i <= p <= |s| && Below(first, i) && Added(first, mid, i, p)
    requires Ordered(SlicesOf(done), i, p + 1) && Unmarked(SlicesOf(done), mid)
    requires Ordered(SlicesOf(done), i, p) || At(s, p) == '<'
    requires StepMade(buf, s, RawStop(result), p, mid, marks)
    ensures NodesMade(buf, s, r, i, first, marks)
    ensures NodesResultOf(s, r) == After(NodesOf(s, done), NodesResultOf(s, result))
  {
    hide Marked, Ordered, Unmarked;
    match result
    case RawNodesFail(_) =>
      Later(first, mid, marks, i, p, |s| + 1);
      return result;
    case RawNodesEnd(_) =>
      StoppedAtEnd(buf, s, SlicesOf(done), i, p, first, marks);
      return RawNodesEnd(done);
    case RawNodesClosed(_, q, endTag) =>
      MadeClosed(buf, s, done, endTag, i, p, q, first, mid, marks);
      return RawNodesClosed(done, q, endTag);
  }

  lemma StoppedAtEnd(buf: array<char>, s: string, xs: seq<Slice>, i: nat, p: nat, first: set<nat>, marks: set<nat>)
    requires i <= p <= |s| && Below(first, i) && Added(first, marks, i, p) && Marked(buf, s, marks)
    requires Ordered(xs, i, p + 1) && Unmarked(xs, marks) && (Ordered(xs, i, p) || At(s, p) == '<')
    ensures MadeUpTo(buf, s, xs, i, |s|, first, marks)
  {
    hide Marked, Unmarked;
  }

  /** `endTag.GetStr()` against `ele->Name()`: both are read. */
  method SameTag(buf: array<char>, ghost s: string, node: Raw, endTag: Slice, ghost i: nat, ghost p: nat,
                 ghost first: set<nat>, ghost marks: set<nat>)
    returns (same: bool, ghost marks': set<nat>)
    requires node.RawElement? && IsName(s, node.name) && IsName(s, endTag)
    requires Made(buf, s, WithEndTag(node, Some(endTag)), i, p, first, marks)
    modifies buf
    ensures same <==> Sub(s, endTag) == Sub(s, node.name)
    ensures Made(buf, s, WithEndTag(node, Some(endTag)), i, p, first, marks')
  {
    hide Marked, Ordered, Unmarked, IsName, Readable, Made, WithEndTag, Added, Below;
    ghost var xs := WithEndTag(node, Some(endTag));
    TagsAmong(node, endTag);
    MadeParts(buf, s, xs, i, p, first, marks);
    UnmarkedMember(xs, marks, endTag);
    marks' := ReadName(buf, s, endTag, marks);
    MadeRead(buf, s, xs, i, p, first, marks, endTag);
    MadeParts(buf, s, xs, i, p, first, marks');
    UnmarkedMember(xs, marks', node.name);
    ghost var mid := marks';
    marks' := ReadName(buf, s, node.name, mid);
    MadeRead(buf, s, xs, i, p, first, mid, node.name);
    MadeParts(buf, s, xs, i, p, first, marks');
    UnmarkedMember(xs, marks', endTag);
    StaysReadable(buf, s, endTag, marks');
    same := SameString(buf, s, endTag, node.name);
  }

  lemma TagsAmong(node: Raw, endTag: Slice)
    requires node.RawElement?
    ensures var xs := WithEndTag(node, Some(endTag));
            && node.name in xs && endTag in xs && |xs| > 0 && xs[0] == node.name
            && xs == NodeSlices(node) + [endTag]
  {
    var xs := WithEndTag(node, Some(endTag));
    assert xs[|xs| - 1] == endTag;
  }

  /** The first slices of a stretch are made too, and from later on where they begin later. */
  lemma MadePrefix(buf: array<char>, s: string, xs: seq<Slice>, ys: seq<Slice>, i: nat, p: nat, first: set<nat>,
                   marks: set<nat>)
    requires Made(buf, s, xs + ys, i, p, first, marks)
    ensures Made(buf, s, xs, i, p, first, marks)
  {
    hide Marked;
    assert forall j :: 0 <= j < |xs| ==> (xs + ys)[j] == xs[j];
    assert forall x :: x in xs ==> x in xs + ys;
  }

  lemma ElementSlices(node: Raw, endTag: Option<Slice>)
    requires node.RawElement?
    ensures WithEndTag(node, endTag) == NodeSlices(node) + if endTag.Some? then [endTag.value] else []
    ensures NodeSlices(node) == [node.name] + (AttrSlices(node.attrs) + SlicesOf(node.kids))
    ensures WithEndTag(node, endTag) ==
            [node.name] + (AttrSlices(node.attrs) + SlicesOf(node.kids) + if endTag.Some? then [endTag.value] else [])
  {
  }

  /** An element and what becomes of it, from the bracket at `j` on. */
  method ElementStep(buf: array<char>, ghost s: string, ghost i: nat, j: nat, depth: nat, ghost marks: set<nat>)
    returns (r: RawStep, ghost marks': set<nat>)
    requires i <= j < |s| && j == SkipWhiteSpace(s, i) && s[j] == '<' && At(s, j + 1) != '?' && At(s, j + 1) != '!'
    requires Marked(buf, s, marks) && Below(marks, i)
    modifies buf
    ensures StepMade(buf, s, r, i, marks, marks') && (r.RawNext? ==> i < r.p <= |s|)
    ensures match r
            case RawStop(result) => ParseNodes(s, i, depth) == NodesResultOf(s, result)
            case RawNext(node, p) => ParseNodes(s, i, depth) == Prepend(NodeOf(s, node), ParseNodes(s, p, depth))
    decreases |s| - i, 1
  {
    hide ParseElement, Marked, Ordered, Unmarked, NodeOf, Made, WithEndTag, NodeSlices, Added;
    var e;
    e, marks' := ParseElementRec(buf, s, j + 1, depth, marks);
    if e.RawElementFails? {
      AddedWider(marks, marks', j + 1, |s| + 1, i, |s| + 1);
      return RawStop(RawNodesFail(e.error)), marks';
    }
    NameOf(s, e.node);
    ElementSlices(e.node, e.endTag);
    ghost var tail := if e.endTag.Some? then [e.endTag.value] else [];
    if e.closing == CLOSING {
      MadePrefix(buf, s, [e.node.name], AttrSlices(e.node.attrs) + SlicesOf(e.node.kids) + tail, j + 1, e.p,
                 marks, marks');
      MadeFrom(buf, s, [e.node.name], i + 1, j + 1, e.p, marks, marks');
      return RawStop(RawNodesClosed([], e.p, e.node.name)), marks';
    }
    var same := e.closing != OPEN;
    if e.endTag.Some? && e.closing == OPEN {
      same, marks' := SameTag(buf, s, e.node, e.endTag.value, j + 1, e.p, marks, marks');
    } else if e.endTag.Some? {
      same := false;
    }
    if !same {
      MadeParts(buf, s, WithEndTag(e.node, e.endTag), j + 1, e.p, marks, marks');
      AddedWider(marks, marks', j + 1, e.p, i, |s| + 1);
      return RawStop(RawNodesFail(MismatchedElement)), marks';
    }
    MadePrefix(buf, s, NodeSlices(e.node), tail, j + 1, e.p, marks, marks');
    MadeFrom(buf, s, NodeSlices(e.node), i + 1, j + 1, e.p, marks, marks');
    return RawNext(e.node, e.p), marks';
  }

  lemma TextOf(s: string, x: Slice)
    ensures NodeOf(s, RawText(x)) == Text(Decode(Sub(s, x)))
  {
  }

  lemma NameOf(s: string, n: Raw)
    requires n.RawElement?
    ensures NodeOf(s, n).Element? && NodeOf(s, n).name == Sub(s, n.name)
  {
  }

  /** One turn of the loop. */
  method ParseNodeStep(buf: array<char>, ghost s: string, i: nat, depth: nat, ghost marks: set<nat>)
    returns (r: RawStep, ghost marks': set<nat>)
    requires i <= |s| && Marked(buf, s, marks) && Below(marks, i) && At(s, i) != NUL
    modifies buf
    ensures StepMade(buf, s, r, i, marks, marks') && (r.RawNext? ==> i < r.p <= |s|)
    ensures match r
            case RawStop(result) => ParseNodes(s, i, depth) == NodesResultOf(s, result)
            case RawNext(node, p) => ParseNodes(s, i, depth) == Prepend(NodeOf(s, node), ParseNodes(s, p, depth))
    decreases |s| - i, 2
  {
    hide ParseElement, ParseText, Decode, Marked, Ordered, Unmarked, NodeOf;
    marks' := marks;
    AddedNone(marks, i, |s| + 1);
    AheadOfMarks(buf, s, marks, i);
    var j := SkipWhiteSpaceLoop(buf, s, i);
    AheadOn(buf, s, i, j);
    CharAhead(buf, s, j);
    if buf[j] == NUL { return RawStop(RawNodesEnd([])), marks'; }
    if buf[j] == '<' {
      if buf[j + 1] == '?' || buf[j + 1] == '!' { return RawStop(RawNodesFail(NotModelled)), marks'; }
      r, marks' := ElementStep(buf, s, i, j, depth, marks);
    } else {
      var k := ParseTextLoop(buf, s, i, '<');
      if k.None? { return RawStop(RawNodesFail(ParsingText)), marks'; }
      AheadOn(buf, s, i, k.value);
      CharAhead(buf, s, k.value);
      if buf[k.value + 1] == NUL { return RawStop(RawNodesFail(Parsing)), marks'; }
      TextNotEmpty(s, i, j, k.value);
      TextOf(s, Slice(i, k.value));
      return RawNext(RawText(Slice(i, k.value)), k.value), marks';
    }
  }

  lemma TextNotEmpty(s: string, i: nat, j: nat, k: nat)
    requires i <= |s| && j == SkipWhiteSpace(s, i) && j < |s| && s[j] != '<'
    requires ParseText(s, i, '<') == Some(k)
    ensures i < k && At(s, i) != '<' && At(s, k) == '<'
  {
  }
}
