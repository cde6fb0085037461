/**
  Element trees of tinyxml2 and the text the compact printer gives them.
*/
module XmlTree {
  import opened XmlText

  datatype Attr = Attr(name: string, value: string)

  datatype Xml =
    | Element(name: string, attrs: seq<Attr>, children: seq<Xml>)
    | Text(value: string)

  // ----- compact printing -----

  function PrintAttr(a: Attr): string {
    [' '] + (a.name + (['=', '"'] + (Escape(a.value, false) + ['"'])))
  }

  function PrintAttrs(attrs: seq<Attr>): string {
    if attrs == [] then "" else PrintAttr(attrs[0]) + PrintAttrs(attrs[1..])
  }

  function PrintNode(n: Xml): string
    decreases n
  {
    match n
    case Text(v) => Escape(v, true)
    case Element(name, attrs, children) => ['<'] + (name + (PrintAttrs(attrs) + PrintBody(n)))
  }

  /** What follows the attributes of an element. */
  function PrintBody(n: Xml): string
    requires n.Element?
    decreases n, 0
  {
    if n.children == [] then ['/', '>']
    else ['>'] + (PrintAll(n.children) + EndTag(n.name))
  }

  function EndTag(name: string): string {
    ['<', '/'] + (name + ['>'])
  }

  function PrintAll(ns: seq<Xml>): string
    decreases ns
  {
    if ns == [] then "" else PrintNode(ns[0]) + PrintAll(ns[1..])
  }

  // ----- legal trees -----

  predicate LegalName(name: string) {
    name != "" && IsNameStartChar(name[0]) && forall c :: c in name ==> IsNameChar(c)
  }

  /** C strings hold no NUL; carriage returns are normalized away by the reader. */
  predicate LegalValue(v: string) {
    NUL !in v && CR !in v
  }

  predicate DistinctNames(attrs: seq<Attr>) {
    forall i, j :: 0 <= i < j < |attrs| ==> attrs[i].name != attrs[j].name
  }

  predicate LegalAttrs(attrs: seq<Attr>) {
    && DistinctNames(attrs)
    && forall a :: a in attrs ==> LegalName(a.name) && LegalValue(a.value)
  }

  predicate Legal(n: Xml)
    decreases n
  {
    match n
    case Text(v) => LegalValue(v)
    case Element(name, attrs, children) =>
      LegalName(name) && LegalAttrs(attrs) && LegalAll(children)
  }

  predicate LegalAll(ns: seq<Xml>)
    decreases ns
  {
    ns != [] ==> Legal(ns[0]) && LegalAll(ns[1..])
  }

  /** How many elements with content enclose the deepest one, itself included. */
  function Height(n: Xml): nat
    decreases n
  {
    match n
    case Text(_) => 0
    case Element(_, _, children) => if children == [] then 0 else 1 + HeightAll(children)
  }

  function HeightAll(ns: seq<Xml>): nat
    decreases ns
  {
    if ns == [] then 0
    else
      var h, rest := Height(ns[0]), HeightAll(ns[1..]);
      if h > rest then h else rest
  }

  // ----- what reading back can preserve -----

  predicate Blank(t: string) {
    forall c :: c in t ==> IsWhiteSpace(c)
  }

  /** Text nodes that hold white space only. */
  predicate TextsBlank(ns: seq<Xml>) {
    forall n :: n in ns && n.Text? ==> Blank(n.value)
  }

  function Flush(pending: string): seq<Xml> {
    if Blank(pending) then [] else [Text(pending)]
  }

  /** Adjacent text nodes run together, and a run of white space only is no node. */
  function Norm(n: Xml): Xml
    decreases n
  {
    match n
    case Text(_) => n
    case Element(name, attrs, children) => Element(name, attrs, NormAll("", children))
  }

  /** `pending` is text that precedes `ns`. */
  function NormAll(pending: string, ns: seq<Xml>): seq<Xml>
    decreases ns
  {
    if ns == [] then Flush(pending)
    else if ns[0].Text? then NormAll(pending + ns[0].value, ns[1..])
    else Flush(pending) + ([Norm(ns[0])] + NormAll("", ns[1..]))
  }

  /** Trees without adjacent, blank or empty text nodes. */
  predicate Plain(n: Xml)
    decreases n
  {
    n.Element? ==> PlainAll(false, n.children)
  }

  predicate PlainAll(afterText: bool, ns: seq<Xml>)
    decreases ns
  {
    ns != [] ==>
      && (ns[0].Text? ==> !afterText && !Blank(ns[0].value))
      && Plain(ns[0])
      && PlainAll(ns[0].Text?, ns[1..])
  }

  /** Only plain trees are their own normal form. */
  lemma {:induction false} NormFixesPlain(n: Xml)
    ensures Norm(n) == n <==> Plain(n)
    decreases n, 1
  {
    if n.Element? {
      NormAllFixesPlain(n.children);
    }
  }

  lemma {:induction false} NormAllLength(pending: string, ns: seq<Xml>)
    ensures |NormAll(pending, ns)| <= |ns| + |Flush(pending)|
    decreases ns
  {
    if ns != [] && ns[0].Text? {
      NormAllLength(pending + ns[0].value, ns[1..]);
    } else if ns != [] {
      NormAllLength("", ns[1..]);
    }
  }

  lemma {:induction false} NormAllFixesPlain(ns: seq<Xml>)
    ensures NormAll("", ns) == ns <==> PlainAll(false, ns)
    decreases ns, 0
  {
    if ns != [] && ns[0].Element? {
      NormFixesPlain(ns[0]);
      NormAllFixesPlain(ns[1..]);
      assert Flush("") == [];
      assert ns == [ns[0]] + ns[1..];
    } else if ns != [] {
      var v := ns[0].value;
      assert "" + v == v;
      TextFirstFixesPlain(v, ns[1..]);
      assert ns == [Text(v)] + ns[1..];
    }
  }

  /** A text node stays as it is exactly when it is not blank, no text follows and the rest stays. */
  lemma {:induction false} TextFirstFixesPlain(v: string, ns: seq<Xml>)
    ensures NormAll(v, ns) == [Text(v)] + ns <==> !Blank(v) && PlainAll(true, ns)
    decreases ns, 0
  {
    if ns == [] {
    } else if ns[0].Text? {
      NormAllLength(v + ns[0].value, ns[1..]);
    } else {
      NormFixesPlain(ns[0]);
      NormAllFixesPlain(ns[1..]);
      NormAllLength("", ns[1..]);
      assert ns == [ns[0]] + ns[1..];
      if !Blank(v) {
        assert NormAll(v, ns) == [Text(v)] + ([Norm(ns[0])] + NormAll("", ns[1..]));
        assert NormAll(v, ns)[1..] == [Norm(ns[0])] + NormAll("", ns[1..]);
      }
    }
  }
}
