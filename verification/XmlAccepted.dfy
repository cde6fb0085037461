/**
  The parser accepts exactly the documents of the language, with the nodes they derive.
*/
module XmlAccepted {
  import opened Wrappers
  import opened XmlText
  import opened XmlTree
  import opened XmlParser
  import opened XmlElements
  import opened XmlGrammar

  // ----- the scanners -----

  lemma {:induction false} SkipsSpaces(s: string, i: nat)
    requires i <= |s|
    ensures Spaces(s, i, SkipWhiteSpace(s, i))
    decreases |s| - i
  {
    if i < |s| && IsWhiteSpace(s[i]) {
      SkipsSpaces(s, i + 1);
    }
  }

  lemma {:induction false} SpacesSkipped(s: string, i: nat, j: nat)
    requires Spaces(s, i, j) && !IsWhiteSpace(At(s, j))
    ensures SkipWhiteSpace(s, i) == j
    decreases j - i
  {
    if i < j {
      SpacesSkipped(s, i + 1, j);
    }
  }

  lemma {:induction false} NameEndIs(s: string, i: nat)
    requires i <= |s|
    ensures var j := NameEnd(s, i);
            (forall k :: i <= k < j ==> IsNameChar(s[k])) && (j < |s| ==> !IsNameChar(s[j]))
    decreases |s| - i
  {
    if i < |s| && IsNameChar(s[i]) {
      NameEndIs(s, i + 1);
    }
  }

  lemma ParsesName(s: string, i: nat)
    requires i <= |s| && ParseName(s, i).Some?
    ensures NameIs(s, i, ParseName(s, i).value)
  {
    hide IsNameChar;
    NameEndIs(s, i + 1);
  }

  lemma {:induction false} NameEndReached(s: string, i: nat, j: nat)
    requires i <= j <= |s| && (forall k :: i <= k < j ==> IsNameChar(s[k])) && (j < |s| ==> !IsNameChar(s[j]))
    ensures NameEnd(s, i) == j
    decreases j - i
  {
    hide IsNameChar;
    if i < j {
      NameEndReached(s, i + 1, j);
    }
  }

  lemma NameParsed(s: string, i: nat, j: nat)
    requires NameIs(s, i, j)
    ensures ParseName(s, i) == Some(j)
  {
    hide IsNameChar;
    NameEndReached(s, i + 1, j);
  }

  lemma {:induction false} ParsesText(s: string, i: nat, tag: char)
    requires i <= |s| && tag != NUL && ParseText(s, i, tag).Some?
    ensures forall k :: i <= k < ParseText(s, i, tag).value ==> s[k] != tag
    decreases |s| - i
  {
    if s[i] != tag {
      ParsesText(s, i + 1, tag);
    }
  }

  lemma {:induction false} TextParsed(s: string, i: nat, j: nat, tag: char)
    requires i <= j < |s| && s[j] == tag && tag != NUL && NUL !in s && forall k :: i <= k < j ==> s[k] != tag
    ensures ParseText(s, i, tag) == Some(j)
    decreases j - i
  {
    assert s[i] in s;
    if i < j {
      TextParsed(s, i + 1, j, tag);
    }
  }

  // ----- attributes -----

  lemma ParsesAttribute(s: string, i: nat)
    requires i <= |s| && ParseAttribute(s, i).AttrParsed?
    ensures AttrIs(s, i, ParseAttribute(s, i).p, ParseAttribute(s, i).attr)
  {
    hide ParseName, ParseText, SkipWhiteSpace, NameIs, Spaces, Decode;
    var end := ParseName(s, i).value;
    var eq := SkipWhiteSpace(s, end);
    var quote := SkipWhiteSpace(s, eq + 1);
    ParsesName(s, i);
    SkipsSpaces(s, end);
    SkipsSpaces(s, eq + 1);
    ParsesText(s, quote + 1, s[quote]);
    assert AttrParts(s, i, end, eq, quote, ParseAttribute(s, i).p, ParseAttribute(s, i).attr);
  }

  lemma AttributeParsed(s: string, i: nat, p: nat, a: Attr)
    requires AttrIs(s, i, p, a) && NUL !in s
    ensures i < p <= |s| && ParseAttribute(s, i) == AttrParsed(p, a)
  {
    hide ParseName, ParseText, SkipWhiteSpace, NameIs, Spaces, Decode;
    var end: nat, eq: nat, quote: nat :| AttrParts(s, i, end, eq, quote, p, a);
    NameBounds(s, i, end);
    SpacesBounds(s, end, eq);
    SpacesBounds(s, eq + 1, quote);
    assert s[end] in s;
    NameParsed(s, i, end);
    SpacesSkipped(s, end, eq);
    SpacesSkipped(s, eq + 1, quote);
    TextParsed(s, quote + 1, p - 1, s[quote]);
  }

  lemma NameBounds(s: string, i: nat, j: nat)
    requires NameIs(s, i, j)
    ensures i < j <= |s| && IsNameStartChar(s[i])
  {
  }

  lemma SpacesBounds(s: string, i: nat, j: nat)
    requires Spaces(s, i, j)
    ensures i <= j <= |s|
  {
  }

  /** The end of a tag behind its white space. */
  predicate TagStops(s: string, trail: nat, p: nat, closed: bool) {
    trail < p <= |s| &&
    if closed then p == trail + 2 && s[trail] == '/' && s[trail + 1] == '>' else p == trail + 1 && s[trail] == '>'
  }

  lemma OneMoreName(read: seq<Attr>, a: Attr)
    ensures DistinctNames(read + [a]) <==> DistinctNames(read) && !HasName(read, a.name)
  {
    var all := read + [a];
    if DistinctNames(all) {
      assert forall i :: 0 <= i < |read| ==> all[i] == read[i];
      assert all[|read|] == a;
    }
  }

  lemma FirstNames(read: seq<Attr>, attrs: seq<Attr>)
    requires DistinctNames(read + attrs)
    ensures DistinctNames(read)
  {
    assert forall i :: 0 <= i < |read| ==> (read + attrs)[i] == read[i];
  }

  lemma AttrsGiven(s: string, i: nat, j: nat, m: nat, p: nat, a: Attr, attrs: seq<Attr>)
    requires Spaces(s, i, j) && AttrIs(s, j, m, a) && AttrsIs(s, m, p, attrs)
    ensures AttrsIs(s, i, p, [a] + attrs)
  {
    hide Spaces, AttrIs;
    assert ([a] + attrs)[1..] == attrs;
  }

  lemma {:induction false} ParsesAttributes(s: string, i: nat, read: seq<Attr>)
    returns (attrs: seq<Attr>, m: nat, trail: nat)
    requires i <= |s| && ParseAttributes(s, i, read).AttrsParsed? && DistinctNames(read)
    ensures var r := ParseAttributes(s, i, read);
            && r.attrs == read + attrs && DistinctNames(r.attrs) && i <= m
            && AttrsIs(s, i, m, attrs) && Spaces(s, m, trail) && TagStops(s, trail, r.p, r.closed)
    decreases |s| - i
  {
    hide AttrIs, Spaces, SkipWhiteSpace, ParseAttribute, HasName, DistinctNames;
    var j := SkipWhiteSpace(s, i);
    SkipsSpaces(s, i);
    if IsNameStartChar(s[j]) {
      hide AttrsIs;
      var AttrParsed(p, a) := ParseAttribute(s, j);
      ParsesAttribute(s, j);
      OneMoreName(read, a);
      attrs, m, trail := ParsesAttributes(s, p, read + [a]);
      AttrsGiven(s, i, j, p, m, a, attrs);
      attrs := [a] + attrs;
      assert read + attrs == (read + [a]) + attrs[1..];
    } else {
      attrs, m, trail := [], i, j;
      assert read + attrs == read;
    }
  }

  lemma NameStartShows(c: char)
    requires IsNameStartChar(c)
    ensures !IsWhiteSpace(c) && c != NUL
  {
  }

  lemma StopsShow()
    ensures forall c :: c == '/' || c == '>' || c == '<' || c == '=' ==>
              !IsWhiteSpace(c) && !IsNameStartChar(c) && !IsNameChar(c)
  {
  }

  lemma AttrStarts(s: string, i: nat, p: nat, a: Attr)
    requires AttrIs(s, i, p, a)
    ensures i < p <= |s| && IsNameStartChar(s[i])
  {
  }

  lemma {:induction false} AttributesParsed(s: string, i: nat, m: nat, trail: nat, p: nat, read: seq<Attr>,
                                            attrs: seq<Attr>, closed: bool)
    requires AttrsIs(s, i, m, attrs) && Spaces(s, m, trail) && TagStops(s, trail, p, closed)
    requires DistinctNames(read + attrs) && NUL !in s && i <= |s|
    ensures ParseAttributes(s, i, read) == AttrsParsed(p, read + attrs, closed)
    decreases |attrs|
  {
    hide AttrIs, Spaces, SkipWhiteSpace, ParseAttribute, HasName, DistinctNames, IsWhiteSpace, IsNameStartChar;
    if attrs == [] {
      StopsShow();
      SpacesSkipped(s, m, trail);
      assert read + attrs == read;
    } else {
      var j: nat, n: nat :| Spaces(s, i, j) && AttrIs(s, j, n, attrs[0]) && AttrsIs(s, n, m, attrs[1..]);
      hide AttrsIs, TagStops;
      AttrStarts(s, j, n, attrs[0]);
      NameStartShows(s[j]);
      SpacesSkipped(s, i, j);
      AttributeParsed(s, j, n, attrs[0]);
      assert read + attrs == (read + [attrs[0]]) + attrs[1..];
      FirstNames(read + [attrs[0]], attrs[1..]);
      OneMoreName(read, attrs[0]);
      AttributesParsed(s, n, m, trail, p, read + [attrs[0]], attrs[1..], closed);
    }
  }

  // ----- tags -----

  /** What the parser sees of a tag. */
  predicate TagRead(s: string, b: nat, p: nat, tag: Tag) {
    b < |s| && s[b] == '<' &&
    var lead := SkipWhiteSpace(s, b + 1);
    var start := if tag.slash then lead + 1 else lead;
    && (At(s, lead) == '/' <==> tag.slash) && start <= |s| && ParseName(s, start).Some?
    && var end := ParseName(s, start).value;
    && s[start..end] == tag.name && ParseAttributes(s, end, []) == AttrsParsed(p, tag.attrs, tag.closed)
  }

  lemma ParsesTag(s: string, b: nat, p: nat, tag: Tag)
    requires TagRead(s, b, p, tag)
    ensures b < p <= |s| && TagIs(s, b, p, tag)
  {
    hide SkipWhiteSpace, ParseName, ParseAttributes, NameIs, Spaces, AttrsIs;
    var lead := SkipWhiteSpace(s, b + 1);
    var start := if tag.slash then lead + 1 else lead;
    var end := ParseName(s, start).value;
    SkipsSpaces(s, b + 1);
    ParsesName(s, start);
    var attrs, m, trail := ParsesAttributes(s, end, []);
    assert [] + attrs == attrs;
    assert TagParts(s, b, lead, end, m, trail, p, tag);
  }

  lemma TagParsed(s: string, b: nat, p: nat, tag: Tag)
    requires TagIs(s, b, p, tag) && NUL !in s
    ensures b < p <= |s| && TagRead(s, b, p, tag)
  {
    hide SkipWhiteSpace, ParseName, ParseAttributes, NameIs, Spaces, AttrsIs, IsWhiteSpace, IsNameStartChar;
    var lead: nat, end: nat, m: nat, trail: nat :| TagParts(s, b, lead, end, m, trail, p, tag);
    var start := if tag.slash then lead + 1 else lead;
    SpacesBounds(s, b + 1, lead);
    SpacesBounds(s, m, trail);
    NameBounds(s, start, end);
    NameStartShows(s[start]);
    StopsShow();
    SpacesSkipped(s, b + 1, lead);
    NameParsed(s, start, end);
    assert [] + tag.attrs == tag.attrs;
    AttributesParsed(s, end, m, trail, p, [], tag.attrs, tag.closed);
  }

  // ----- elements and nodes, as the parser finds them -----

  lemma NodesGiven(s: string, i: nat, m: nat, p: nat, n: Xml, nodes: seq<Xml>, level: nat)
    requires i < m <= p && NodeIs(s, i, m, n, level) && NodesIs(s, m, p, nodes, level)
    ensures NodesIs(s, i, p, [n] + nodes, level)
  {
    assert ([n] + nodes)[1..] == nodes;
  }

  lemma EmptyGiven(s: string, i: nat, b: nat, p: nat, slash: bool, name: string, attrs: seq<Attr>, level: nat)
    requires i <= b < p && Spaces(s, i, b) && TagIs(s, b, p, Tag(slash, true, name, attrs))
    ensures NodeIs(s, i, p, Element(name, attrs, []), level)
  {
    assert ElementIs(s, b, p, Element(name, attrs, []), level);
  }

  lemma FullGiven(s: string, i: nat, b: nat, p1: nat, p2: nat, p: nat, n: Xml, level: nat)
    requires i <= b < p1 <= p2 < p && Spaces(s, i, b) && n.Element? && level < MAX_NESTED
    requires TagIs(s, b, p1, Tag(false, false, n.name, n.attrs)) && NodesIs(s, p1, p2, n.children, level + 1)
    requires EndIs(s, p2, p, n.name)
    ensures NodeIs(s, i, p, n, level)
  {
    assert ContentIs(s, b, p1, p2, p, n, level);
    assert ElementIs(s, b, p, n, level);
  }

  lemma TextGiven(s: string, i: nat, p: nat, v: string, level: nat)
    requires TextIs(s, i, p, v)
    ensures NodeIs(s, i, p, Text(v), level)
  {
  }

  lemma EndGiven(s: string, i: nat, b: nat, p: nat, name: string, attrs: seq<Attr>)
    requires i <= b < p && Spaces(s, i, b) && TagIs(s, b, p, Tag(true, false, name, attrs))
    ensures EndIs(s, i, p, name)
  {
  }

  /** What an element that the parser has read stands for, its end tag apart. */
  ghost predicate ElementFound(s: string, b: nat, r: ElementResult, depth: nat)
    requires r.ElementParsed? && r.node.Element? && b < r.p
  {
    var Element(name, attrs, children) := r.node;
    match r.closing
    case CLOSED =>
      r.endTag == None && children == [] && exists slash :: TagIs(s, b, r.p, Tag(slash, true, name, attrs))
    case CLOSING => r.endTag == None && TagIs(s, b, r.p, Tag(true, false, name, attrs))
    case OPEN =>
      r.endTag.Some? ==> depth <= MAX_NESTED && exists p1, p2 :: OpenFound(s, b, p1, p2, r, depth)
  }

  ghost predicate OpenFound(s: string, b: nat, p1: nat, p2: nat, r: ElementResult, depth: nat)
    requires r.ElementParsed? && r.node.Element? && r.endTag.Some?
  {
    && b < p1 <= p2 < r.p && TagIs(s, b, p1, Tag(false, false, r.node.name, r.node.attrs))
    && NodesIs(s, p1, p2, r.node.children, depth) && EndIs(s, p2, r.p, r.endTag.value)
  }

  /** The nodes that the parser has read end at `p`, and what it has read behind them. */
  ghost predicate NodesFound(s: string, i: nat, p: nat, r: NodesResult, level: nat) {
    match r
    case NodesFail(_) => true
    case NodesEnd(nodes) => i <= p <= |s| && NodesIs(s, i, p, nodes, level) && Spaces(s, p, |s|)
    case NodesClosed(nodes, q, name) => i <= p < q <= |s| && NodesIs(s, i, p, nodes, level) && EndIs(s, p, q, name)
  }

  /** One node more in front. */
  lemma Found(s: string, i: nat, m: nat, p: nat, n: Xml, r: NodesResult, level: nat)
    requires i < m && NodeIs(s, i, m, n, level) && NodesFound(s, m, p, r, level)
    ensures NodesFound(s, i, p, Prepend(n, r), level)
  {
    hide NodesIs, NodeIs, EndIs, Spaces;
    match r
    case NodesFail(_) =>
    case NodesEnd(nodes) => NodesGiven(s, i, m, p, n, nodes, level);
    case NodesClosed(nodes, _, _) => NodesGiven(s, i, m, p, n, nodes, level);
  }

  lemma NothingFound(s: string, i: nat, r: NodesResult, level: nat)
    requires i <= |s|
    ensures r.NodesFail? ==> NodesFound(s, i, i, r, level)
    ensures r == NodesEnd([]) && Spaces(s, i, |s|) ==> NodesFound(s, i, i, r, level)
    ensures r.NodesClosed? && r.nodes == [] && i < r.p <= |s| && EndIs(s, i, r.p, r.endTag) ==>
              NodesFound(s, i, i, r, level)
  {
    hide EndIs, Spaces;
  }

  lemma {:induction false} ParsesElement(s: string, b: nat, depth: nat)
    requires b < |s| && s[b] == '<' && 0 < depth < MAX_ELEMENT_DEPTH && NUL !in s
    requires ParseElement(s, b + 1, depth).ElementParsed?
    ensures ElementFound(s, b, ParseElement(s, b + 1, depth), depth)
    decreases |s| - b, 0
  {
    hide SkipWhiteSpace, ParseName, ParseAttributes, ParseNodes, TagIs, NodesIs, EndIs;
    var r := ParseElement(s, b + 1, depth);
    var lead := SkipWhiteSpace(s, b + 1);
    var slash := At(s, lead) == '/';
    var start := if slash then lead + 1 else lead;
    var end := ParseName(s, start).value;
    var AttrsParsed(p, attrs, closed) := ParseAttributes(s, end, []);
    var tag := Tag(slash, closed, s[start..end], attrs);
    ParsesTag(s, b, p, tag);
    if r.endTag.Some? {
      var p2 := ParsesNodes(s, p, depth + 1);
      assert OpenFound(s, b, p, p2, r, depth);
    }
  }

  /** The loop's turn on markup. */
  lemma MarkupTurn(s: string, i: nat, j: nat, depth: nat)
    requires i <= j < |s| && SkipWhiteSpace(s, i) == j && s[j] == '<' && At(s, j + 1) != '?' && At(s, j + 1) != '!'
    ensures ParseNodes(s, i, depth) ==
            match ParseElement(s, j + 1, depth)
            case ElementFails(error) => NodesFail(error)
            case ElementParsed(p, node, closing, endTag) =>
              if closing == CLOSING then NodesClosed([], p, node.name)
              else if endTag == None && closing == OPEN then NodesFail(MismatchedElement)
              else if endTag.Some? && (closing != OPEN || endTag.value != node.name) then NodesFail(MismatchedElement)
              else Prepend(node, ParseNodes(s, p, depth))
  {
    hide SkipWhiteSpace, ParseElement, ParseText;
  }

  /** The loop's turn on text. */
  lemma TextTurn(s: string, i: nat, j: nat, depth: nat)
    requires i <= j < |s| && SkipWhiteSpace(s, i) == j && s[j] != '<' && s[j] != NUL
    ensures ParseNodes(s, i, depth) ==
            match ParseText(s, i, '<')
            case None => NodesFail(ParsingText)
            case Some(k) =>
              if At(s, k + 1) == NUL then NodesFail(Parsing)
              else Prepend(Text(Decode(s[i..k])), ParseNodes(s, k, depth))
  {
    hide SkipWhiteSpace, ParseElement, ParseText, Decode;
  }

  lemma ParsesTextNode(s: string, i: nat, j: nat, k: nat)
    requires Spaces(s, i, j) && j < |s| && s[j] != '<' && !IsWhiteSpace(s[j])
    requires ParseText(s, i, '<') == Some(k) && At(s, k + 1) != NUL
    ensures i < k && TextIs(s, i, k, Decode(s[i..k]))
  {
    hide Decode, ParseText;
    assert s[k] == '<';
    ParsesText(s, i, '<');
    assert !IsWhiteSpace('<');
    assert j < k;
  }

  lemma {:induction false} ParsesMarkup(s: string, i: nat, j: nat, depth: nat) returns (p: nat)
    requires i <= j < |s| && 0 < depth < MAX_ELEMENT_DEPTH && NUL !in s
    requires SkipWhiteSpace(s, i) == j && s[j] == '<' && At(s, j + 1) != '?' && At(s, j + 1) != '!'
    ensures NodesFound(s, i, p, ParseNodes(s, i, depth), depth - 1)
    decreases |s| - i, 1
  {
    hide SkipWhiteSpace, ParseElement, ParseNodes, Spaces, EndIs, TagIs, NodeIs, NodesIs, NodesFound;
    p := i;
    SkipsSpaces(s, i);
    MarkupTurn(s, i, j, depth);
    NothingFound(s, i, ParseNodes(s, i, depth), depth - 1);
    if ParseElement(s, j + 1, depth).ElementParsed? {
      var ElementParsed(q, node, closing, endTag) := ParseElement(s, j + 1, depth);
      ParsesElement(s, j, depth);
      if closing == CLOSING {
        EndGiven(s, i, j, q, node.name, node.attrs);
      } else if !ParseNodes(s, i, depth).NodesFail? {
        NodeFound(s, i, j, ParseElement(s, j + 1, depth), depth);
        p := ParsesNodes(s, q, depth);
        Found(s, i, q, p, node, ParseNodes(s, q, depth), depth - 1);
      }
    }
  }

  /** An element with an end tag of its own name, or closed at once, is a node. */
  lemma NodeFound(s: string, i: nat, j: nat, r: ElementResult, depth: nat)
    requires i <= j < |s| && depth > 0 && Spaces(s, i, j) && r.ElementParsed? && r.node.Element? && j < r.p
    requires ElementFound(s, j, r, depth) && r.closing != CLOSING
    requires r.closing == OPEN ==> r.endTag == Some(r.node.name)
    ensures NodeIs(s, i, r.p, r.node, depth - 1)
  {
    hide Spaces, EndIs, TagIs, NodeIs, NodesIs;
    var Element(name, attrs, children) := r.node;
    if r.closing == CLOSED {
      var slash :| TagIs(s, j, r.p, Tag(slash, true, name, attrs));
      EmptyGiven(s, i, j, r.p, slash, name, attrs, depth - 1);
    } else {
      var p1: nat, p2: nat :| OpenFound(s, j, p1, p2, r, depth);
      FullGiven(s, i, j, p1, p2, r.p, r.node, depth - 1);
    }
  }

  lemma {:induction false} ParsesNodes(s: string, i: nat, depth: nat) returns (p: nat)
    requires i <= |s| && 0 < depth < MAX_ELEMENT_DEPTH && NUL !in s
    ensures NodesFound(s, i, p, ParseNodes(s, i, depth), depth - 1)
    decreases |s| - i, 2
  {
    hide SkipWhiteSpace, ParseElement, ParseText, Decode, Spaces, EndIs, TagIs, NodeIs, TextIs, NodesFound;
    p := i;
    var j := SkipWhiteSpace(s, i);
    SkipsSpaces(s, i);
    NothingFound(s, i, ParseNodes(s, i, depth), depth - 1);
    if j < |s| {
      assert s[j] in s;
      if s[j] != '<' {
        hide ParseNodes, NodesIs;
        TextTurn(s, i, j, depth);
        if ParseText(s, i, '<').Some? && At(s, ParseText(s, i, '<').value + 1) != NUL {
          var k := ParseText(s, i, '<').value;
          ParsesTextNode(s, i, j, k);
          TextGiven(s, i, k, Decode(s[i..k]), depth - 1);
          p := ParsesNodes(s, k, depth);
          Found(s, i, k, p, Text(Decode(s[i..k])), ParseNodes(s, k, depth), depth - 1);
        }
      } else if At(s, j + 1) != '?' && At(s, j + 1) != '!' {
        hide ParseNodes, NodesIs;
        p := ParsesMarkup(s, i, j, depth);
      }
    }
  }

  // ----- what is derived is parsed -----

  /** A tag that ends the element at once, or is an end tag. */
  lemma ShortTurn(s: string, i: nat, b: nat, p: nat, tag: Tag, depth: nat)
    requires i <= b && Spaces(s, i, b) && TagIs(s, b, p, tag) && NUL !in s && (tag.slash || tag.closed)
    ensures b < p <= |s|
    ensures ParseNodes(s, i, depth) ==
            if tag.closed then Prepend(Element(tag.name, tag.attrs, []), ParseNodes(s, p, depth))
            else NodesClosed([], p, tag.name)
  {
    hide ParseNodes, SkipWhiteSpace, ParseName, ParseAttributes, TagIs;
    TagParsed(s, b, p, tag);
    BracketReached(s, i, b, tag, p);
    MarkupTurn(s, i, b, depth);
  }

  lemma BracketReached(s: string, i: nat, b: nat, tag: Tag, p: nat)
    requires i <= b && Spaces(s, i, b) && TagRead(s, b, p, tag)
    ensures b < |s| && SkipWhiteSpace(s, i) == b && s[b] == '<' && At(s, b + 1) != '?' && At(s, b + 1) != '!'
  {
    hide ParseAttributes;
    StopsShow();
    SpacesSkipped(s, i, b);
  }

  lemma EndParsed(s: string, i: nat, p: nat, name: string, depth: nat)
    requires EndIs(s, i, p, name) && NUL !in s
    ensures i < p <= |s| && ParseNodes(s, i, depth) == NodesClosed([], p, name)
  {
    hide ParseNodes, Spaces, TagIs;
    var b: nat, attrs :| i <= b < p && Spaces(s, i, b) && TagIs(s, b, p, Tag(true, false, name, attrs));
    ShortTurn(s, i, b, p, Tag(true, false, name, attrs), depth);
  }

  /** An open tag, its content read, and its end tag. */
  lemma FullTurn(s: string, i: nat, b: nat, p1: nat, p: nat, n: Xml, depth: nat)
    requires i <= b && Spaces(s, i, b) && n.Element? && NUL !in s && depth + 1 < MAX_ELEMENT_DEPTH
    requires TagIs(s, b, p1, Tag(false, false, n.name, n.attrs)) && p1 < |s|
    requires ParseNodes(s, p1, depth + 1) == NodesClosed(n.children, p, n.name)
    ensures ParseNodes(s, i, depth) == Prepend(n, ParseNodes(s, p, depth))
  {
    hide ParseNodes, SkipWhiteSpace, ParseName, ParseAttributes, TagIs;
    TagParsed(s, b, p1, Tag(false, false, n.name, n.attrs));
    BracketReached(s, i, b, Tag(false, false, n.name, n.attrs), p1);
    MarkupTurn(s, i, b, depth);
    assert s[p1] in s;
  }

  lemma SpacesEndBefore(s: string, i: nat, j: nat, p: nat)
    requires Spaces(s, i, j) && i <= p <= |s| && !Spaces(s, i, p)
    ensures j < p
  {
  }

  lemma TextRead(s: string, i: nat, p: nat, v: string, depth: nat)
    requires TextIs(s, i, p, v) && NUL !in s
    ensures ParseNodes(s, i, depth) == Prepend(Text(v), ParseNodes(s, p, depth))
  {
    hide ParseNodes, SkipWhiteSpace, ParseText, Decode;
    var j := SkipWhiteSpace(s, i);
    SkipsSpaces(s, i);
    SpacesEndBefore(s, i, j, p);
    assert s[j] in s && s[p + 1] in s;
    TextParsed(s, i, p, '<');
    TextTurn(s, i, j, depth);
  }

  lemma NodeTaken(s: string, i: nat, p: nat, n: Xml, level: nat) returns (b: nat)
    requires NodeIs(s, i, p, n, level) && n.Element?
    ensures i <= b < p && Spaces(s, i, b) && ElementIs(s, b, p, n, level)
  {
    hide Spaces, ElementIs;
    b :| i <= b < p && Spaces(s, i, b) && ElementIs(s, b, p, n, level);
  }

  lemma ElementTaken(s: string, b: nat, p: nat, n: Xml, level: nat) returns (slash: bool, p1: nat, p2: nat)
    requires n.Element? && ElementIs(s, b, p, n, level)
    ensures || (n.children == [] && TagIs(s, b, p, Tag(slash, true, n.name, n.attrs)))
            || (level < MAX_NESTED && b < p1 <= p2 < p && ContentIs(s, b, p1, p2, p, n, level))
  {
    hide TagIs, ContentIs;
    slash, p1, p2 := false, 0, 0;
    if n.children == [] && exists h :: TagIs(s, b, p, Tag(h, true, n.name, n.attrs)) {
      slash :| TagIs(s, b, p, Tag(slash, true, n.name, n.attrs));
    } else {
      p1, p2 :| b < p1 <= p2 < p && ContentIs(s, b, p1, p2, p, n, level);
    }
  }

  lemma {:induction false} ContentParsed(s: string, i: nat, b: nat, p1: nat, p2: nat, p: nat, n: Xml, depth: nat)
    requires i <= b < p1 <= p2 < p <= |s| && Spaces(s, i, b) && n.Element? && NUL !in s && 0 < depth <= MAX_NESTED
    requires ContentIs(s, b, p1, p2, p, n, depth - 1)
    ensures ParseNodes(s, i, depth) == Prepend(n, ParseNodes(s, p, depth))
    decreases p - b, 1
  {
    hide ParseNodes, Spaces, TagIs, NodesIs, EndIs;
    NodesParsed(s, p1, p2, n.children, depth + 1);
    EndParsed(s, p2, p, n.name, depth + 1);
    PrependAllResult(n.children, NodesClosed([], p, n.name));
    FullTurn(s, i, b, p1, p, n, depth);
  }

  lemma {:induction false} NodeParsed(s: string, i: nat, p: nat, n: Xml, depth: nat)
    requires 0 < depth < MAX_ELEMENT_DEPTH && NodeIs(s, i, p, n, depth - 1) && NUL !in s && i <= p <= |s|
    ensures ParseNodes(s, i, depth) == Prepend(n, ParseNodes(s, p, depth))
    decreases p - i, 2
  {
    hide ParseNodes, TextIs, Spaces, TagIs, ContentIs;
    if n.Text? {
      TextRead(s, i, p, n.value, depth);
    } else {
      hide NodeIs, ElementIs;
      var b := NodeTaken(s, i, p, n, depth - 1);
      var slash, p1, p2 := ElementTaken(s, b, p, n, depth - 1);
      if n.children == [] && TagIs(s, b, p, Tag(slash, true, n.name, n.attrs)) {
        ShortTurn(s, i, b, p, Tag(slash, true, n.name, n.attrs), depth);
      } else {
        ContentParsed(s, i, b, p1, p2, p, n, depth);
      }
    }
  }

  lemma {:induction false} NodesParsed(s: string, i: nat, p: nat, nodes: seq<Xml>, depth: nat)
    requires 0 < depth < MAX_ELEMENT_DEPTH && NodesIs(s, i, p, nodes, depth - 1) && NUL !in s && i <= p <= |s|
    ensures ParseNodes(s, i, depth) == PrependAll(nodes, ParseNodes(s, p, depth))
    decreases p - i, 3
  {
    hide ParseNodes, NodeIs;
    if nodes != [] {
      var m: nat :| i < m <= p && NodeIs(s, i, m, nodes[0], depth - 1) && NodesIs(s, m, p, nodes[1..], depth - 1);
      NodeParsed(s, i, m, nodes[0], depth);
      NodesParsed(s, m, p, nodes[1..], depth);
    }
  }

  // ----- documents -----

  lemma DocumentFound(s: string)
    requires NUL !in s && ParseDocument(s).Parsed?
    ensures DocumentIs(s, ParseDocument(s).nodes)
  {
    hide SkipWhiteSpace, ParseNodes, Spaces, EndIs, NodesIs;
    var d := SkipWhiteSpace(s, 0);
    SkipsSpaces(s, 0);
    var p := ParsesNodes(s, d, 1);
    assert TailIs(s, p);
    assert NodesIs(s, d, p, ParseDocument(s).nodes, 0);
  }

  lemma DocumentParsed(s: string, nodes: seq<Xml>)
    requires NUL !in s && DocumentIs(s, nodes)
    ensures ParseDocument(s) == Parsed(nodes)
  {
    hide SkipWhiteSpace, ParseNodes, EndIs, NodesIs;
    var d: nat, p: nat :|
      Spaces(s, 0, d) && d < |s| && !IsWhiteSpace(s[d]) && NodesIs(s, d, p, nodes, 0) && TailIs(s, p);
    assert s[0] in s && s[d] in s;
    SpacesSkipped(s, 0, d);
    TailBounds(s, p);
    NodesBounds(s, d, p, nodes, 0);
    NodesParsed(s, d, p, nodes, 1);
    if Spaces(s, p, |s|) {
      RestIsBlank(s, p);
      PrependAllResult(nodes, NodesEnd([]));
    } else {
      var q: nat, name :| EndIs(s, p, q, name);
      EndParsed(s, p, q, name, 1);
      PrependAllResult(nodes, NodesClosed([], q, name));
    }
  }

  lemma RestIsBlank(s: string, p: nat)
    requires Spaces(s, p, |s|)
    ensures ParseNodes(s, p, 1) == NodesEnd([])
  {
    assert !IsWhiteSpace(NUL);
    SpacesSkipped(s, p, |s|);
  }

  lemma TailBounds(s: string, p: nat)
    requires TailIs(s, p) && NUL !in s
    ensures p <= |s|
  {
    hide Spaces, TagIs;
    if Spaces(s, p, |s|) {
      SpacesBounds(s, p, |s|);
    } else {
      var q: nat, name :| EndIs(s, p, q, name);
      EndParsed(s, p, q, name, 1);
    }
  }

  lemma NodesBounds(s: string, i: nat, p: nat, nodes: seq<Xml>, level: nat)
    requires NodesIs(s, i, p, nodes, level)
    ensures i <= p
  {
  }

  // ----- end tags of another name -----

  /** An open tag, its content, and an end tag of another name. */
  ghost predicate WrongHere(s: string, i: nat, b: nat, p1: nat, p2: nat, p: nat, tag: Tag, children: seq<Xml>,
                            other: string, level: nat)
  {
    && i <= b < p1 <= p2 < p && Spaces(s, i, b) && level < MAX_NESTED
    && TagIs(s, b, p1, tag) && !tag.slash && !tag.closed && NodesIs(s, p1, p2, children, level + 1)
    && EndIs(s, p2, p, other) && other != tag.name
  }

  ghost predicate SomeWrongHere(s: string, i: nat, level: nat) {
    exists b, p1, p2, p, tag, children, other :: WrongHere(s, i, b, p1, p2, p, tag, children, other, level)
  }

  ghost predicate OpenAt(s: string, i: nat, b: nat, p1: nat, tag: Tag) {
    i <= b < p1 <= |s| && Spaces(s, i, b) && TagIs(s, b, p1, tag) && !tag.slash && !tag.closed
  }

  /** Behind some nodes there is an element with a wrong end tag, or an open element with one in its content. */
  ghost predicate WrongFrom(s: string, i: nat, level: nat)
    requires i <= |s|
    decreases |s| - i
  {
    exists m, before :: i <= m <= |s| && NodesIs(s, i, m, before, level) && WrongAt(s, i, m, level)
  }

  ghost predicate WrongAt(s: string, i: nat, m: nat, level: nat)
    requires i <= m <= |s|
    decreases |s| - i, 0
  {
    || SomeWrongHere(s, m, level)
    || (level < MAX_NESTED && exists b, p1, tag ::
          i < p1 <= |s| && OpenAt(s, m, b, p1, tag) && WrongFrom(s, p1, level + 1))
  }

  lemma OpenTurn(s: string, i: nat, b: nat, p1: nat, tag: Tag, depth: nat)
    requires OpenAt(s, i, b, p1, tag) && NUL !in s && 0 < depth <= MAX_NESTED && p1 < |s|
    ensures ParseNodes(s, p1, depth + 1) == NodesFail(MismatchedElement) ==>
              ParseNodes(s, i, depth) == NodesFail(MismatchedElement)
    ensures ParseNodes(s, p1, depth + 1).NodesClosed? && ParseNodes(s, p1, depth + 1).endTag != tag.name ==>
              ParseNodes(s, i, depth) == NodesFail(MismatchedElement)
  {
    hide ParseNodes, SkipWhiteSpace, ParseName, ParseAttributes, TagIs;
    TagParsed(s, b, p1, tag);
    BracketReached(s, i, b, tag, p1);
    MarkupTurn(s, i, b, depth);
    assert s[p1] in s;
  }

  lemma WrongHereFails(s: string, i: nat, b: nat, p1: nat, p2: nat, p: nat, tag: Tag, children: seq<Xml>,
                       other: string, depth: nat)
    requires 0 < depth && WrongHere(s, i, b, p1, p2, p, tag, children, other, depth - 1) && NUL !in s
    ensures ParseNodes(s, i, depth) == NodesFail(MismatchedElement)
  {
    hide ParseNodes, TagIs, NodesIs, EndIs, Spaces;
    EndParsed(s, p2, p, other, depth + 1);
    NodesParsed(s, p1, p2, children, depth + 1);
    PrependAllResult(children, NodesClosed([], p, other));
    OpenTurn(s, i, b, p1, tag, depth);
  }

  lemma {:induction false} WrongFails(s: string, i: nat, depth: nat)
    requires i <= |s| && NUL !in s && 0 < depth < MAX_ELEMENT_DEPTH && WrongFrom(s, i, depth - 1)
    ensures ParseNodes(s, i, depth) == NodesFail(MismatchedElement)
    decreases |s| - i
  {
    hide ParseNodes, NodesIs, OpenAt, WrongHere;
    var m: nat, before :| i <= m <= |s| && NodesIs(s, i, m, before, depth - 1) && WrongAt(s, i, m, depth - 1);
    NodesParsed(s, i, m, before, depth);
    PrependAllResult(before, NodesFail(MismatchedElement));
    if SomeWrongHere(s, m, depth - 1) {
      var b: nat, p1: nat, p2: nat, p: nat, tag, children, other :|
        WrongHere(s, m, b, p1, p2, p, tag, children, other, depth - 1);
      WrongHereFails(s, m, b, p1, p2, p, tag, children, other, depth);
    } else {
      var b: nat, p1: nat, tag :| i < p1 <= |s| && OpenAt(s, m, b, p1, tag) && WrongFrom(s, p1, depth);
      WrongFails(s, p1, depth + 1);
      NothingAtTheEnd(s, depth + 1);
      OpenTurn(s, m, b, p1, tag, depth);
    }
  }

  lemma NothingAtTheEnd(s: string, depth: nat)
    ensures ParseNodes(s, |s|, depth) == NodesEnd([])
  {
  }

  /** Wherever it stands in a document, however deep, an element with an end tag of another name makes the
      whole document an error, and that error. */
  lemma WrongEndTag(s: string, d: nat)
    requires NUL !in s && Spaces(s, 0, d) && d < |s| && !IsWhiteSpace(s[d]) && WrongFrom(s, d, 0)
    ensures ParseDocument(s) == ParseError(MismatchedElement)
  {
    hide ParseNodes, SkipWhiteSpace, WrongFrom;
    assert s[0] in s && s[d] in s;
    SpacesSkipped(s, 0, d);
    WrongFails(s, d, 1);
  }

  // ----- all documents -----

  /** The parser accepts exactly the documents of the language, and gives the nodes they derive; all other
      text is an error. */
  lemma ParsedExactly(s: string, nodes: seq<Xml>)
    requires NUL !in s
    ensures ParseDocument(s) == Parsed(nodes) <==> DocumentIs(s, nodes)
    ensures ParseDocument(s).ParseError? <==> forall ns :: !DocumentIs(s, ns)
  {
    hide ParseDocument, DocumentIs;
    if ParseDocument(s).Parsed? {
      DocumentFound(s);
    }
    forall ns | DocumentIs(s, ns)
      ensures ParseDocument(s) == Parsed(ns)
    {
      DocumentParsed(s, ns);
    }
  }
}
