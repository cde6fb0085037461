/**
  The parser on printed elements and node lists, by induction over the tree.
*/
module XmlElements {
  import opened Wrappers
  import opened Slices
  import opened XmlText
  import opened XmlTree
  import opened XmlParser
  import opened XmlRoundTrip

  function PrependAll(ns: seq<Xml>, r: NodesResult): NodesResult {
    if ns == [] then r else Prepend(ns[0], PrependAll(ns[1..], r))
  }

  lemma {:induction false} PrependAllConcat(a: seq<Xml>, b: seq<Xml>, r: NodesResult)
    ensures PrependAll(a + b, r) == PrependAll(a, PrependAll(b, r))
    decreases |a|
  {
    if a == [] {
      assert a + b == b;
    } else {
      assert (a + b)[0] == a[0] && (a + b)[1..] == a[1..] + b;
      PrependAllConcat(a[1..], b, r);
    }
  }

  lemma {:induction false} PrependAllResult(ns: seq<Xml>, r: NodesResult)
    ensures r.NodesFail? ==> PrependAll(ns, r) == r
    ensures r == NodesEnd([]) ==> PrependAll(ns, r) == NodesEnd(ns)
    ensures r.NodesClosed? && r.nodes == [] ==> PrependAll(ns, r) == NodesClosed(ns, r.p, r.endTag)
    decreases |ns|
  {
    if ns != [] {
      PrependAllResult(ns[1..], r);
      assert ns == [ns[0]] + ns[1..];
    }
  }

  // ----- end tags -----

  lemma EndTagHere(s: string, k: nat, name: string)
    requires Here(s, k, EndTag(name)) && LegalName(name)
    ensures k + |name| + 3 <= |s|
    ensures s[k] == '<' && s[k + 1] == '/' && Here(s, k + 2, name) && s[k + 2..k + 2 + |name|] == name
    ensures s[k + 2 + |name|] == '>'
  {
    assert EndTag(name) == ['<'] + (['/'] + (name + ['>']));
    HereHead(s, k, '<', ['/'] + (name + ['>']));
    HereHead(s, k + 1, '/', name + ['>']);
    HereSplit(s, k + 2, name, ['>']);
    HereHead(s, k + 2 + |name|, '>', []);
  }

  lemma EndTagFound(s: string, k: nat, name: string, depth: nat)
    requires Here(s, k, EndTag(name)) && LegalName(name)
    ensures ParseNodes(s, k, depth) == NodesClosed([], k + |name| + 3, name)
  {
    hide ParseNodes, ParseElement, ParseAttributes, ParseName, SkipWhiteSpace, Here, EndTag;
    EndTagHere(s, k, name);
    var end := k + 2 + |name|;
    NothingToSkip(s, k);
    NothingToSkip(s, k + 1);
    NameFound(s, k + 2, name);
    TagEndFound(s, end, [], false);
    EndTagElement(s, k, end, name, depth);
    EndTagNodes(s, k, end, name, depth);
  }

  lemma EndTagElement(s: string, k: nat, end: nat, name: string, depth: nat)
    requires k + 2 <= end < |s| && s[k + 1] == '/' && SkipWhiteSpace(s, k + 1) == k + 1
    requires ParseName(s, k + 2) == Some(end) && s[k + 2..end] == name
    requires ParseAttributes(s, end, []) == AttrsParsed(end + 1, [], false)
    ensures ParseElement(s, k + 1, depth) == ElementParsed(end + 1, Element(name, [], []), CLOSING, None)
  {
    hide ParseAttributes, ParseName, SkipWhiteSpace, ParseDeep;
  }

  lemma EndTagNodes(s: string, k: nat, p: nat, name: string, depth: nat)
    requires k + 1 < p < |s| && s[k] == '<' && s[k + 1] == '/' && SkipWhiteSpace(s, k) == k
    requires ParseElement(s, k + 1, depth) == ElementParsed(p + 1, Element(name, [], []), CLOSING, None)
    ensures ParseNodes(s, k, depth) == NodesClosed([], p + 1, name)
  {
    hide ParseElement, SkipWhiteSpace, ParseText;
  }

  // ----- text before markup -----

  /** Markup begins at `k`, with at least one character after the bracket. */
  predicate MarkupAt(s: string, k: nat) {
    k + 1 < |s| && s[k] == '<' && s[k + 1] != NUL
  }

  lemma FlushFound(s: string, i: nat, pending: string, k: nat, depth: nat)
    requires Here(s, i, Escape(pending, true)) && k == i + |Escape(pending, true)|
    requires LegalValue(pending) && MarkupAt(s, k)
    ensures ParseNodes(s, i, depth) == PrependAll(Flush(pending), ParseNodes(s, k, depth))
  {
    hide ParseNodes, SkipWhiteSpace, Escape, Decode, Here;
    assert '<' != NUL && !IsWhiteSpace('<');
    if Blank(pending) {
      EscapeBlank(pending);
      SkipBlank(s, i, pending);
      NothingToSkip(s, k);
      SameSkip(s, i, k, depth);
    } else {
      SkipEscaped(s, i, pending);
      EscapeAvoids(pending, true, '<');
      EscapeAvoids(pending, true, NUL);
      TextFound(s, i, Escape(pending, true), '<');
      DecodeInvertsEscape(pending, true);
      HereSlice(s, i, Escape(pending, true));
      TextNode(s, i, k, depth, pending);
      assert PrependAll([Text(pending)], ParseNodes(s, k, depth)) == Prepend(Text(pending), ParseNodes(s, k, depth));
    }
  }

  lemma HereSlice(s: string, i: nat, w: string)
    requires Here(s, i, w)
    ensures i + |w| <= |s| && s[i..i + |w|] == w
  {
  }

  /** The loop depends on the position only through the next character that is no white space,
      when that opens markup. */
  lemma SameSkip(s: string, i: nat, k: nat, depth: nat)
    requires i <= k < |s| && s[k] == '<' && SkipWhiteSpace(s, i) == k && SkipWhiteSpace(s, k) == k
    ensures ParseNodes(s, i, depth) == ParseNodes(s, k, depth)
  {
    hide SkipWhiteSpace, ParseElement, ParseText;
  }

  lemma TextNode(s: string, i: nat, k: nat, depth: nat, v: string)
    requires i <= k && MarkupAt(s, k) && ParseText(s, i, '<') == Some(k) && Decode(s[i..k]) == v
    requires var j := SkipWhiteSpace(s, i); j < |s| && s[j] != '<' && s[j] != NUL
    ensures ParseNodes(s, i, depth) == Prepend(Text(v), ParseNodes(s, k, depth))
  {
    hide SkipWhiteSpace, ParseElement, ParseText, Decode;
  }

  lemma BlankToTheEnd(s: string, i: nat, pending: string, depth: nat)
    requires Here(s, i, Escape(pending, true)) && i + |Escape(pending, true)| == |s| && Blank(pending)
    ensures ParseNodes(s, i, depth) == NodesEnd([]) && ParseNodes(s, |s|, depth) == NodesEnd([])
  {
    hide SkipWhiteSpace;
    EscapeBlank(pending);
    SkipBlank(s, i, pending);
    NothingToSkip(s, |s|);
  }

  // ----- opening tags -----

  lemma ElementHere(s: string, k: nat, e: Xml)
    requires e.Element? && LegalName(e.name) && Here(s, k, PrintNode(e))
    ensures var afterName := k + 1 + |e.name|;
            var body := afterName + |PrintAttrs(e.attrs)|;
            && MarkupAt(s, k) && s[k + 1] == e.name[0]
            && Here(s, k + 1, e.name) && s[k + 1..afterName] == e.name
            && Here(s, afterName, PrintAttrs(e.attrs))
            && Here(s, body, PrintBody(e))
            && k + |PrintNode(e)| == body + |PrintBody(e)|
            && body < |s| && !IsNameChar(s[afterName]) && afterName < |s|
  {
    hide PrintAttrs, PrintBody, Here;
    var rest := PrintAttrs(e.attrs) + PrintBody(e);
    HereHead(s, k, '<', e.name + rest);
    HereSplit(s, k + 1, e.name, rest);
    NameHere(s, k + 1, e.name, rest);
    NameStartIsPlain(s[k + 1]);
    HereSlice(s, k + 1, e.name);
    HereSplit(s, k + 1 + |e.name|, PrintAttrs(e.attrs), PrintBody(e));
    HereSlice(s, k + 1 + |e.name| + |PrintAttrs(e.attrs)|, PrintBody(e));
    AfterName(s, k + 1 + |e.name|, e);
  }

  lemma AfterName(s: string, i: nat, e: Xml)
    requires e.Element? && Here(s, i, PrintAttrs(e.attrs) + PrintBody(e))
    ensures i < |s| && !IsNameChar(s[i]) && i + |PrintAttrs(e.attrs)| < |s|
  {
  }

  lemma EmptyBodyHere(s: string, i: nat, e: Xml)
    requires e.Element? && e.children == [] && Here(s, i, PrintBody(e))
    ensures TagEnds(s, i, true) && i + 2 <= |s| && |PrintBody(e)| == 2
  {
  }

  lemma BodyHere(s: string, i: nat, e: Xml)
    requires e.Element? && e.children != [] && Here(s, i, PrintBody(e))
    ensures TagEnds(s, i, false) && Here(s, i + 1, PrintAll(e.children))
    ensures var stop := i + 1 + |PrintAll(e.children)|;
            Here(s, stop, EndTag(e.name)) && i + |PrintBody(e)| == stop + |e.name| + 3
  {
    hide PrintAll;
    HereHead(s, i, '>', PrintAll(e.children) + EndTag(e.name));
    HereSplit(s, i + 1, PrintAll(e.children), EndTag(e.name));
  }

  /** An element's content never starts with NUL. */
  lemma {:induction false} ContentStarts(s: string, p: nat, ns: seq<Xml>)
    requires LegalAll(ns) && Here(s, p, PrintAll(ns)) && MarkupAt(s, p + |PrintAll(ns)|)
    ensures p < |s| && s[p] != NUL
    decreases |ns|
  {
    hide PrintNode;
    if ns != [] {
      var w := PrintNode(ns[0]);
      HereSplit(s, p, w, PrintAll(ns[1..]));
      if w == "" {
        ContentStarts(s, p, ns[1..]);
      } else {
        NodeStarts(ns[0]);
        assert s[p] == s[p..p + |w|][0];
      }
    }
  }

  lemma NodeStarts(n: Xml)
    requires Legal(n) && PrintNode(n) != ""
    ensures PrintNode(n)[0] != NUL
  {
  }

  // ----- whole trees -----

  /** What parsing a printed element at `k` yields: the normal form of the element, unless it nests
      too deeply. */
  ghost predicate ElementReadAt(s: string, k: nat, e: Xml, depth: nat)
    requires e.Element? && k < |s|
  {
    ParseElement(s, k + 1, depth) ==
    if depth + Height(e) < MAX_ELEMENT_DEPTH then
      ElementParsed(k + |PrintNode(e)|, Norm(e), if e.children == [] then CLOSED else OPEN,
                    if e.children == [] then None else Some(e.name))
    else ElementFails(ElementDepthExceeded)
  }

  ghost predicate NodesReadAt(s: string, i: nat, pending: string, ns: seq<Xml>, depth: nat, stop: nat)
    requires i <= |s| && stop <= |s|
  {
    ParseNodes(s, i, depth) ==
    if depth + HeightAll(ns) < MAX_ELEMENT_DEPTH then PrependAll(NormAll(pending, ns), ParseNodes(s, stop, depth))
    else NodesFail(ElementDepthExceeded)
  }

  lemma {:induction false} ElementPrinted(s: string, k: nat, e: Xml, depth: nat)
    requires e.Element? && Legal(e) && depth < MAX_ELEMENT_DEPTH
    requires Here(s, k, PrintNode(e))
    ensures k < |s| && ElementReadAt(s, k, e, depth)
    decreases e, 1
  {
    hide ParseElement, ParseNodes, ParseAttributes, ParseName, SkipWhiteSpace, Here, PrintNode, PrintAttrs,
         PrintBody, IsNameChar, IsWhiteSpace, IsNameStartChar;
    ElementHere(s, k, e);
    var afterName := k + 1 + |e.name|;
    var body := afterName + |PrintAttrs(e.attrs)|;
    NameStartIsPlain(s[k + 1]);
    NothingToSkip(s, k + 1);
    NameFound(s, k + 1, e.name);
    assert [] + e.attrs == e.attrs;
    if e.children == [] {
      EmptyBodyHere(s, body, e);
      AttributesFound(s, afterName, [], e.attrs, true);
      ClosedElement(s, k, afterName, body + 2, e, depth);
    } else {
      BodyHere(s, body, e);
      HereSlice(s, k, PrintNode(e));
      AttributesFound(s, afterName, [], e.attrs, false);
      ContentPrinted(s, k, body, e, depth);
      OpenElement(s, k, afterName, body + 1, e, depth);
    }
  }

  lemma ClosedElement(s: string, k: nat, afterName: nat, p: nat, e: Xml, depth: nat)
    requires e.Element? && e.children == [] && k + 1 < afterName < p <= |s| && depth < MAX_ELEMENT_DEPTH
    requires SkipWhiteSpace(s, k + 1) == k + 1 && s[k + 1] != '/' && p == k + |PrintNode(e)|
    requires ParseName(s, k + 1) == Some(afterName) && s[k + 1..afterName] == e.name
    requires ParseAttributes(s, afterName, []) == AttrsParsed(p, e.attrs, true)
    ensures ElementReadAt(s, k, e, depth)
  {
    hide ParseAttributes, ParseName, SkipWhiteSpace, ParseDeep, PrintNode;
    assert NormAll("", []) == [];
  }

  /** What the content of an element reads as, for the parse one level down. */
  ghost predicate ContentReadAt(s: string, p: nat, end: nat, e: Xml, depth: nat)
    requires e.Element? && p <= |s|
  {
    ParseDeep(s, p, depth) ==
    if depth + HeightAll(e.children) < MAX_ELEMENT_DEPTH then NodesClosed(NormAll("", e.children), end, e.name)
    else NodesFail(ElementDepthExceeded)
  }

  lemma OpenElement(s: string, k: nat, afterName: nat, p: nat, e: Xml, depth: nat)
    requires e.Element? && e.children != [] && k + 1 < afterName < p <= |s|
    requires SkipWhiteSpace(s, k + 1) == k + 1 && s[k + 1] != '/'
    requires ParseName(s, k + 1) == Some(afterName) && s[k + 1..afterName] == e.name
    requires ParseAttributes(s, afterName, []) == AttrsParsed(p, e.attrs, false)
    requires At(s, p) != NUL && ContentReadAt(s, p, k + |PrintNode(e)|, e, depth + 1)
    ensures ElementReadAt(s, k, e, depth)
  {
    hide ParseAttributes, ParseName, SkipWhiteSpace, ParseDeep, PrintNode, NormAll;
  }

  lemma {:induction false} ContentPrinted(s: string, k: nat, body: nat, e: Xml, depth: nat)
    requires e.Element? && e.children != [] && Legal(e) && depth < MAX_ELEMENT_DEPTH
    requires Here(s, body, PrintBody(e)) && body + |PrintBody(e)| == k + |PrintNode(e)| <= |s|
    ensures body + 1 <= |s| && At(s, body + 1) != NUL
    ensures ContentReadAt(s, body + 1, k + |PrintNode(e)|, e, depth + 1)
    decreases e, 0
  {
    hide ParseElement, ParseNodes, ParseAttributes, ParseName, SkipWhiteSpace, Here, PrintNode, PrintAttrs,
         PrintBody, PrintAll, NormAll, EndTag, IsNameChar, IsWhiteSpace, IsNameStartChar;
    var stop := body + 1 + |PrintAll(e.children)|;
    BodyHere(s, body, e);
    EndTagHere(s, stop, e.name);
    ContentStarts(s, body + 1, e.children);
    EndTagFound(s, stop, e.name, depth + 1);
    PrependAllResult(NormAll("", e.children), ParseNodes(s, stop, depth + 1));
    if depth + 1 < MAX_ELEMENT_DEPTH {
      NoPending(s, body + 1, e.children);
      NodesPrinted(s, body + 1, "", e.children, depth + 1, stop);
    }
  }

  lemma NoPending(s: string, i: nat, ns: seq<Xml>)
    requires Here(s, i, PrintAll(ns))
    ensures Here(s, i, Escape("", true) + PrintAll(ns)) && |Escape("", true)| == 0
  {
  }

  /** Where a node list may stop: at markup, or, when it ends in white space, at the input's end. */
  predicate StopsAt(s: string, stop: nat, pending: string, ns: seq<Xml>) {
    MarkupAt(s, stop) || (stop == |s| && Blank(pending) && TextsBlank(ns))
  }

  lemma {:induction false} NodesPrinted(s: string, i: nat, pending: string, ns: seq<Xml>, depth: nat, stop: nat)
    requires LegalValue(pending) && LegalAll(ns) && depth < MAX_ELEMENT_DEPTH
    requires Here(s, i, Escape(pending, true) + PrintAll(ns))
    requires stop == i + |Escape(pending, true)| + |PrintAll(ns)|
    requires StopsAt(s, stop, pending, ns)
    ensures i <= |s| && stop <= |s| && NodesReadAt(s, i, pending, ns, depth, stop)
    decreases ns, 0
  {
    hide ParseElement, ParseNodes, SkipWhiteSpace, Here, PrintNode, Escape, IsWhiteSpace;
    var k := i + |Escape(pending, true)|;
    if ns == [] {
      HereSplit(s, i, Escape(pending, true), PrintAll(ns));
      HereSlice(s, i, Escape(pending, true));
      if MarkupAt(s, stop) {
        FlushFound(s, i, pending, k, depth);
      } else {
        BlankToTheEnd(s, i, pending, depth);
      }
    } else if ns[0].Text? {
      MergeText(s, i, pending, ns);
      NodesPrinted(s, i, pending + ns[0].value, ns[1..], depth, stop);
      assert Height(ns[0]) == 0;
      assert HeightAll(ns) == HeightAll(ns[1..]);
      assert NormAll(pending, ns) == NormAll(pending + ns[0].value, ns[1..]);
    } else {
      ElementFirst(s, i, pending, ns, depth, stop);
    }
  }

  lemma MergeText(s: string, i: nat, pending: string, ns: seq<Xml>)
    requires ns != [] && ns[0].Text?
    requires Here(s, i, Escape(pending, true) + PrintAll(ns))
    ensures Here(s, i, Escape(pending + ns[0].value, true) + PrintAll(ns[1..]))
    ensures |Escape(pending + ns[0].value, true)| + |PrintAll(ns[1..])| == |Escape(pending, true)| + |PrintAll(ns)|
  {
    hide Escape;
    var a, b, c := Escape(pending, true), Escape(ns[0].value, true), PrintAll(ns[1..]);
    EscapeConcat(pending, ns[0].value, true);
    assert a + (b + c) == (a + b) + c;
  }

  /** Where the pending text, the leading element and the rest lie. */
  lemma ElementFirstHere(s: string, i: nat, pending: string, ns: seq<Xml>)
    requires ns != [] && Here(s, i, Escape(pending, true) + PrintAll(ns))
    ensures var k := i + |Escape(pending, true)|;
            var next := k + |PrintNode(ns[0])|;
            && Here(s, i, Escape(pending, true)) && Here(s, k, PrintNode(ns[0])) && next <= |s|
            && Here(s, next, Escape("", true) + PrintAll(ns[1..])) && |Escape("", true)| == 0
            && k + |PrintAll(ns)| == next + |PrintAll(ns[1..])|
  {
    hide Escape, PrintNode, Here;
    var k := i + |Escape(pending, true)|;
    HereSplit(s, i, Escape(pending, true), PrintAll(ns));
    HereSplit(s, k, PrintNode(ns[0]), PrintAll(ns[1..]));
    HereSlice(s, k + |PrintNode(ns[0])|, PrintAll(ns[1..]));
    NoPending(s, k + |PrintNode(ns[0])|, ns[1..]);
  }

  lemma {:induction false} ElementFirst(s: string, i: nat, pending: string, ns: seq<Xml>, depth: nat, stop: nat)
    requires ns != [] && ns[0].Element?
    requires LegalValue(pending) && LegalAll(ns) && depth < MAX_ELEMENT_DEPTH
    requires Here(s, i, Escape(pending, true) + PrintAll(ns))
    requires stop == i + |Escape(pending, true)| + |PrintAll(ns)|
    requires StopsAt(s, stop, pending, ns)
    ensures i <= |s| && stop <= |s| && NodesReadAt(s, i, pending, ns, depth, stop)
    decreases ns, 0, 0
  {
    hide ParseElement, ParseNodes, SkipWhiteSpace, Here, PrintNode, Escape, IsWhiteSpace, PrependAll, Norm;
    hide NodesReadAt, NormAll, Height, Flush, ElementReadAt, PrintAll;
    var e := ns[0];
    var k := i + |Escape(pending, true)|;
    var next := k + |PrintNode(e)|;
    ElementFirstHere(s, i, pending, ns);
    ElementHere(s, k, e);
    FlushFound(s, i, pending, k, depth);
    ElementPrinted(s, k, e, depth);
    NameStartIsPlain(s[k + 1]);
    BracketIsPlain();
    NothingToSkip(s, k);
    NodesPrinted(s, next, "", ns[1..], depth, stop);
    ElementNode(s, k, e, depth);
    JoinFirst(s, i, k, pending, ns, depth, stop);
  }

  lemma BracketIsPlain()
    ensures !IsWhiteSpace('<')
  {
  }

  /** The loop's turn on a printed element. */
  lemma ElementNode(s: string, k: nat, e: Xml, depth: nat)
    requires e.Element? && MarkupAt(s, k) && s[k + 1] != '?' && s[k + 1] != '!' && SkipWhiteSpace(s, k) == k
    requires ElementReadAt(s, k, e, depth)
    ensures depth + Height(e) >= MAX_ELEMENT_DEPTH ==> ParseNodes(s, k, depth) == NodesFail(ElementDepthExceeded)
    ensures depth + Height(e) < MAX_ELEMENT_DEPTH ==>
              && k + |PrintNode(e)| <= |s|
              && ParseNodes(s, k, depth) == Prepend(Norm(e), ParseNodes(s, k + |PrintNode(e)|, depth))
  {
    hide ParseElement, SkipWhiteSpace, PrintNode, Height, NormAll;
  }

  lemma JoinFirst(s: string, i: nat, k: nat, pending: string, ns: seq<Xml>, depth: nat, stop: nat)
    requires ns != [] && ns[0].Element? && i <= k < |s| && stop <= |s| && k + |PrintNode(ns[0])| <= |s|
    requires ParseNodes(s, i, depth) == PrependAll(Flush(pending), ParseNodes(s, k, depth))
    requires depth + Height(ns[0]) >= MAX_ELEMENT_DEPTH ==> ParseNodes(s, k, depth) == NodesFail(ElementDepthExceeded)
    requires depth + Height(ns[0]) < MAX_ELEMENT_DEPTH ==>
               ParseNodes(s, k, depth) == Prepend(Norm(ns[0]), ParseNodes(s, k + |PrintNode(ns[0])|, depth))
    requires NodesReadAt(s, k + |PrintNode(ns[0])|, "", ns[1..], depth, stop)
    ensures NodesReadAt(s, i, pending, ns, depth, stop)
  {
    hide ParseNodes, Height, Norm, Flush, PrintNode;
    var rest := NormAll("", ns[1..]);
    var one := [Norm(ns[0])];
    var last := ParseNodes(s, stop, depth);
    PrependAllConcat(Flush(pending), one + rest, last);
    PrependAllConcat(one, rest, last);
    PrependAllResult(Flush(pending), NodesFail(ElementDepthExceeded));
    assert one[1..] == [];
    assert PrependAll(one, PrependAll(rest, last)) == Prepend(one[0], PrependAll(rest, last));
  }
}
