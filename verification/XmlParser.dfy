/**
  The recursive-descent parser of tinyxml2 over the document's character buffer, whose
  terminating NUL is `At(s, |s|)`.  A return of 0 without an error is XML_ERROR_PARSING, which
  the caller sets.  Declarations, comments, CDATA and DTDs end the model's run.
*/
module XmlParser {
  import opened Wrappers
  import opened XmlText
  import opened XmlTree

  const MAX_ELEMENT_DEPTH := 100

  datatype XmlError =
    | ParsingElement | ParsingAttribute | ParsingText | EmptyDocument | MismatchedElement
    | Parsing | ElementDepthExceeded | NotModelled

  datatype ClosingType = OPEN | CLOSED | CLOSING

  function SkipWhiteSpace(s: string, i: nat): (j: nat)
    requires i <= |s|
    ensures i <= j <= |s| && !IsWhiteSpace(At(s, j))
    decreases |s| - i
  {
    if i < |s| && IsWhiteSpace(s[i]) then SkipWhiteSpace(s, i + 1) else i
  }

  /** `ParseText` up to a one-character end tag: its position, unless the input ends before it. */
  function ParseText(s: string, i: nat, tag: char): (r: Option<nat>)
    requires i <= |s| && tag != NUL
    ensures r.Some? ==> i <= r.value < |s| && s[r.value] == tag
    decreases |s| - i
  {
    if At(s, i) == NUL then None
    else if s[i] == tag then Some(i)
    else ParseText(s, i + 1, tag)
  }

  function NameEnd(s: string, i: nat): (j: nat)
    requires i <= |s|
    ensures i <= j <= |s|
    decreases |s| - i
  {
    if i < |s| && IsNameChar(s[i]) then NameEnd(s, i + 1) else i
  }

  /** `ParseName`: the end of the name that starts at `i`. */
  function ParseName(s: string, i: nat): (r: Option<nat>)
    requires i <= |s|
    ensures r.Some? ==> i < r.value <= |s|
  {
    if At(s, i) == NUL || !IsNameStartChar(s[i]) then None else Some(NameEnd(s, i + 1))
  }

  datatype AttrResult = AttrFails | AttrParsed(p: nat, attr: Attr)

  function ParseAttribute(s: string, i: nat): (r: AttrResult)
    requires i <= |s|
    ensures r.AttrParsed? ==> i < r.p <= |s|
  {
    var nameEnd := ParseName(s, i);
    if nameEnd.None? || At(s, nameEnd.value) == NUL then AttrFails
    else
      var eq := SkipWhiteSpace(s, nameEnd.value);
      if At(s, eq) != '=' then AttrFails
      else
        var quote := SkipWhiteSpace(s, eq + 1);
        if At(s, quote) != '"' && At(s, quote) != '\'' then AttrFails
        else
          match ParseText(s, quote + 1, s[quote])
          case None => AttrFails
          case Some(end) =>
            AttrParsed(end + 1, Attr(s[i..nameEnd.value], Decode(s[quote + 1..end])))
  }

  datatype AttrsResult = AttrsFail(error: XmlError) | AttrsParsed(p: nat, attrs: seq<Attr>, closed: bool)

  predicate HasName(attrs: seq<Attr>, name: string) {
    exists j :: 0 <= j < |attrs| && attrs[j].name == name
  }

  /** The loop of `ParseAttributes`, with the attributes `read` so far. */
  function ParseAttributes(s: string, i: nat, read: seq<Attr>): (r: AttrsResult)
    requires i <= |s|
    ensures r.AttrsParsed? ==> i < r.p <= |s|
    decreases |s| - i
  {
    var j := SkipWhiteSpace(s, i);
    if At(s, j) == NUL then AttrsFail(ParsingElement)
    else if IsNameStartChar(s[j]) then
      match ParseAttribute(s, j)
      case AttrFails => AttrsFail(ParsingAttribute)
      case AttrParsed(p, attr) =>
        if HasName(read, attr.name) then AttrsFail(ParsingAttribute)
        else ParseAttributes(s, p, read + [attr])
    else if s[j] == '>' then AttrsParsed(j + 1, read, false)
    else if s[j] == '/' && At(s, j + 1) == '>' then AttrsParsed(j + 2, read, true)
    else AttrsFail(ParsingElement)
  }

  datatype ElementResult =
    | ElementFails(error: XmlError)
    | ElementParsed(p: nat, node: Xml, closing: ClosingType, endTag: Option<string>)

  /** How `XMLNode::ParseDeep` ends: with an error, at the end of the input, or at an end tag that
      it hands up. */
  datatype NodesResult =
    | NodesFail(error: XmlError)
    | NodesEnd(nodes: seq<Xml>)
    | NodesClosed(nodes: seq<Xml>, p: nat, endTag: string)

  function Prepend(n: Xml, r: NodesResult): NodesResult {
    match r
    case NodesFail(_) => r
    case NodesEnd(nodes) => NodesEnd([n] + nodes)
    case NodesClosed(nodes, p, endTag) => NodesClosed([n] + nodes, p, endTag)
  }

  /** `XMLElement::ParseDeep`, just after the opening bracket, inside `depth` nested parses. */
  function ParseElement(s: string, i: nat, depth: nat): (r: ElementResult)
    requires i <= |s|
    ensures r.ElementParsed? ==> i < r.p <= |s| && r.node.Element?
    decreases |s| - i
  {
    var j := SkipWhiteSpace(s, i);
    var slash := At(s, j) == '/';
    var start := if slash then j + 1 else j;
    match ParseName(s, start)
    case None => ElementFails(Parsing)
    case Some(end) =>
      var name := s[start..end];
      match ParseAttributes(s, end, [])
      case AttrsFail(error) => ElementFails(error)
      case AttrsParsed(p, attrs, closed) =>
        var closing := if closed then CLOSED else if slash then CLOSING else OPEN;
        if At(s, p) == NUL || closing != OPEN then ElementParsed(p, Element(name, attrs, []), closing, None)
        else
          match ParseDeep(s, p, depth + 1)
          case NodesFail(error) => ElementFails(error)
          case NodesEnd(_) => ElementFails(Parsing)
          case NodesClosed(nodes, p', endTag) =>
            ElementParsed(p', Element(name, attrs, nodes), OPEN, Some(endTag))
  }

  /** `XMLNode::ParseDeep` with its depth tracker: `depth` counts this parse too. */
  function ParseDeep(s: string, i: nat, depth: nat): (r: NodesResult)
    requires i <= |s|
    ensures r.NodesClosed? ==> i < r.p <= |s|
    decreases |s| - i, 1
  {
    if depth == MAX_ELEMENT_DEPTH then NodesFail(ElementDepthExceeded) else ParseNodes(s, i, depth)
  }

  /** The loop of `XMLNode::ParseDeep` from position `i` on. */
  function ParseNodes(s: string, i: nat, depth: nat): (r: NodesResult)
    requires i <= |s|
    ensures r.NodesClosed? ==> i < r.p <= |s|
    decreases |s| - i, 0
  {
    var j := SkipWhiteSpace(s, i);
    if At(s, j) == NUL then NodesEnd([])
    else if s[j] == '<' then
      if At(s, j + 1) == '?' || At(s, j + 1) == '!' then NodesFail(NotModelled)
      else
        match ParseElement(s, j + 1, depth)
        case ElementFails(error) => NodesFail(error)
        case ElementParsed(p, node, closing, endTag) =>
          if closing == CLOSING then NodesClosed([], p, node.name)
          else if Mismatch(node, closing, endTag) then NodesFail(MismatchedElement)
          else Prepend(node, ParseNodes(s, p, depth))
    else
      match ParseText(s, i, '<')
      case None => NodesFail(ParsingText)
      case Some(k) =>
        if At(s, k + 1) == NUL then NodesFail(Parsing)
        else Prepend(Text(Decode(s[i..k])), ParseNodes(s, k, depth))
  }

  predicate Mismatch(node: Xml, closing: ClosingType, endTag: Option<string>)
    requires node.Element?
  {
    if endTag.None? then closing == OPEN else closing != OPEN || endTag.value != node.name
  }

  datatype Document = ParseError(error: XmlError) | Parsed(nodes: seq<Xml>)

  /** `XMLDocument::Parse`; a failed parse leaves no nodes. */
  function ParseDocument(s: string): Document {
    if At(s, 0) == NUL || At(s, SkipWhiteSpace(s, 0)) == NUL then ParseError(EmptyDocument)
    else
      match ParseDeep(s, SkipWhiteSpace(s, 0), 1)
      case NodesFail(error) => ParseError(error)
      case NodesEnd(nodes) => Parsed(nodes)
      case NodesClosed(nodes, _, _) => Parsed(nodes)
  }
}
