/**
  The language of documents, told without the parser: which stretches of the text are white space, names,
  attributes, tags, nodes and documents.  `s[i..p]` derives what a predicate says of it.
*/
module XmlGrammar {
  import opened XmlText
  import opened XmlTree

  /** The elements with content that may be nested in each other. */
  const MAX_NESTED := 98

  /** The classes of characters by their codes: white space is what `isspace` takes for it, and names are made
      of letters, digits, `:`, `_`, `.`, `-` and all bytes from 128 on, not beginning with a digit, `.` or `-`. */
  lemma CharacterClasses(c: char)
    ensures IsWhiteSpace(c) <==> c as int in {9, 10, 11, 12, 13, 32}
    ensures IsNameStartChar(c) <==>
              c as int in {58, 95} || 65 <= c as int <= 90 || 97 <= c as int <= 122 || 128 <= c as int
    ensures IsNameChar(c) <==> IsNameStartChar(c) || c as int in {45, 46} || 48 <= c as int <= 57
  {
  }

  predicate Spaces(s: string, i: nat, j: nat) {
    i <= j <= |s| && forall k :: i <= k < j ==> IsWhiteSpace(s[k])
  }

  /** A name is as long as its characters go on. */
  predicate NameIs(s: string, i: nat, j: nat) {
    && i < j <= |s| && IsNameStartChar(s[i]) && (forall k :: i < k < j ==> IsNameChar(s[k]))
    && (j < |s| ==> !IsNameChar(s[j]))
  }

  /** A name, an equals sign and a value in quotes of either kind, with white space between them. */
  predicate AttrParts(s: string, i: nat, end: nat, eq: nat, quote: nat, p: nat, a: Attr) {
    && NameIs(s, i, end)
    && Spaces(s, end, eq) && eq < |s| && s[eq] == '='
    && Spaces(s, eq + 1, quote) && quote + 1 < p <= |s| && (s[quote] == '"' || s[quote] == '\'')
    && s[p - 1] == s[quote] && (forall k :: quote < k < p - 1 ==> s[k] != s[quote])
    && a == Attr(s[i..end], Decode(s[quote + 1..p - 1]))
  }

  ghost predicate AttrIs(s: string, i: nat, p: nat, a: Attr) {
    exists end, eq, quote :: AttrParts(s, i, end, eq, quote, p, a)
  }

  ghost predicate AttrsIs(s: string, i: nat, p: nat, attrs: seq<Attr>)
    decreases |attrs|
  {
    if attrs == [] then i == p
    else exists j, m :: Spaces(s, i, j) && AttrIs(s, j, m, attrs[0]) && AttrsIs(s, m, p, attrs[1..])
  }

  /** What a tag says: whether it begins with a slash, whether it ends with one, its name, its attributes. */
  datatype Tag = Tag(slash: bool, closed: bool, name: string, attrs: seq<Attr>)

  ghost predicate TagParts(s: string, i: nat, lead: nat, end: nat, m: nat, trail: nat, p: nat, tag: Tag) {
    && i < |s| && s[i] == '<'
    && Spaces(s, i + 1, lead) && lead < |s| && (tag.slash ==> s[lead] == '/')
    && NameIs(s, if tag.slash then lead + 1 else lead, end)
    && tag.name == s[if tag.slash then lead + 1 else lead..end]
    && end <= m && AttrsIs(s, end, m, tag.attrs) && DistinctNames(tag.attrs)
    && Spaces(s, m, trail)
    && trail < p <= |s|
    && if tag.closed then p == trail + 2 && s[trail] == '/' && s[trail + 1] == '>'
       else p == trail + 1 && s[trail] == '>'
  }

  ghost predicate TagIs(s: string, i: nat, p: nat, tag: Tag) {
    exists lead, end, m, trail :: TagParts(s, i, lead, end, m, trail, p, tag)
  }

  /** An end tag, which may have attributes too. */
  ghost predicate EndIs(s: string, i: nat, p: nat, name: string) {
    exists b, attrs :: i <= b < p && Spaces(s, i, b) && TagIs(s, b, p, Tag(true, false, name, attrs))
  }

  /** Text that is not blank, up to a bracket with something behind it. */
  predicate TextIs(s: string, i: nat, p: nat, v: string) {
    && i < p && p + 1 < |s| && s[p] == '<' && (forall k :: i <= k < p ==> s[k] != '<')
    && !Spaces(s, i, p) && v == Decode(s[i..p])
  }

  ghost predicate NodeIs(s: string, i: nat, p: nat, n: Xml, level: nat)
    decreases p - i, 2
  {
    match n
    case Text(v) => TextIs(s, i, p, v)
    case Element(name, attrs, children) =>
      exists b :: i <= b < p && Spaces(s, i, b) && ElementIs(s, b, p, n, level)
  }

  /** A tag that is closed at once, or a tag, content and an end tag of the same name. */
  ghost predicate ElementIs(s: string, i: nat, p: nat, n: Xml, level: nat)
    requires n.Element?
    decreases p - i, 1
  {
    || (n.children == [] && exists slash :: TagIs(s, i, p, Tag(slash, true, n.name, n.attrs)))
    || (level < MAX_NESTED && exists p1, p2 :: i < p1 <= p2 < p && ContentIs(s, i, p1, p2, p, n, level))
  }

  ghost predicate ContentIs(s: string, i: nat, p1: nat, p2: nat, p: nat, n: Xml, level: nat)
    requires n.Element? && i < p1 <= p2 < p
    decreases p - i, 0
  {
    && TagIs(s, i, p1, Tag(false, false, n.name, n.attrs)) && NodesIs(s, p1, p2, n.children, level + 1)
    && EndIs(s, p2, p, n.name)
  }

  ghost predicate NodesIs(s: string, i: nat, p: nat, nodes: seq<Xml>, level: nat)
    decreases p - i, 3
  {
    if nodes == [] then i == p
    else exists m :: i < m <= p && NodeIs(s, i, m, nodes[0], level) && NodesIs(s, m, p, nodes[1..], level)
  }

  /** White space, nodes, and either white space to the end or an end tag, which ends the document
      whatever follows it.  There is something else than white space. */
  ghost predicate DocumentIs(s: string, nodes: seq<Xml>) {
    exists d: nat, p: nat ::
      Spaces(s, 0, d) && d < |s| && !IsWhiteSpace(s[d]) && NodesIs(s, d, p, nodes, 0) && TailIs(s, p)
  }

  ghost predicate TailIs(s: string, p: nat) {
    Spaces(s, p, |s|) || exists q, name :: EndIs(s, p, q, name)
  }
}
