/**
  Whole documents: printing, in either mode, then parsing.
*/
module XmlDocuments {
  import opened Slices
  import opened XmlTree
  import opened XmlParser
  import opened XmlRoundTrip
  import opened XmlElements
  import opened XmlLayout

  predicate AllElements(ns: seq<Xml>) {
    forall n :: n in ns ==> n.Element?
  }

  /** The document's nodes as printed at depth 0, `first` before anything has been printed. */
  function LayDocument(ns: seq<Xml>, first: bool, textDepth: int, compact: bool): seq<Xml>
    requires AllElements(ns)
  {
    if ns == [] then []
    else
      var (e, next) := Lay(ns[0], 0, textDepth, compact);
      LeadingPad(first, textDepth, compact)
      + ([e] + (TrailingPad(compact) + LayDocument(ns[1..], false, next, compact)))
  }

  function LeadingPad(first: bool, textDepth: int, compact: bool): seq<Xml> {
    if first then [] else Pad(0, textDepth, compact)
  }

  function TrailingPad(compact: bool): seq<Xml> {
    if compact then [] else [NewLine(0)]
  }

  function PrintDocument(ns: seq<Xml>, compact: bool): string
    requires AllElements(ns)
  {
    PrintAll(LayDocument(ns, true, -1, compact))
  }

  lemma {:induction false} BlankNormAny(pending: string, ns: seq<Xml>)
    requires Blank(pending) && TextsBlank(ns)
    ensures NormAll(pending, ns) == NormAll("", ns)
    decreases |ns|
  {
    if ns != [] && ns[0].Text? {
      assert ns[0] in ns && TextsBlank(ns[1..]);
      assert "" + ns[0].value == ns[0].value;
      BlankNormAny(pending + ns[0].value, ns[1..]);
      BlankNormAny(ns[0].value, ns[1..]);
    }
  }

  lemma PaddedKeeps(pad: seq<Xml>, ns: seq<Xml>)
    requires pad == [] || pad == [NewLine(0)]
    requires LegalAll(ns) && TextsBlank(ns)
    ensures LegalAll(pad + ns) && TextsBlank(pad + ns) && HeightAll(pad + ns) == HeightAll(ns)
    ensures NormAll("", pad + ns) == NormAll("", ns)
  {
    if pad == [] {
      assert pad + ns == ns;
    } else {
      var t := NewLine(0);
      NewLineLegal(0);
      NewLineBlank(0);
      assert ([t] + ns)[1..] == ns;
      assert forall n :: n in [t] + ns ==> n == t || n in ns;
      assert "" + t.value == t.value;
      BlankNormAny(t.value, ns);
    }
  }

  lemma {:induction false} LayDocumentKeeps(ns: seq<Xml>, first: bool, textDepth: int, compact: bool)
    requires AllElements(ns) && LegalAll(ns)
    ensures var laid := LayDocument(ns, first, textDepth, compact);
            && LegalAll(laid) && TextsBlank(laid) && HeightAll(laid) == HeightAll(ns)
            && NormAll("", laid) == NormAll("", ns)
    decreases |ns|
  {
    if ns != [] {
      var (e, next) := Lay(ns[0], 0, textDepth, compact);
      var rest := LayDocument(ns[1..], false, next, compact);
      assert AllElements(ns[1..]);
      LayDocumentKeeps(ns[1..], false, next, compact);
      PaddedKeeps(TrailingPad(compact), rest);
      ElementKeeps(ns, e, TrailingPad(compact) + rest, textDepth, compact);
      PaddedKeeps(LeadingPad(first, textDepth, compact), [e] + (TrailingPad(compact) + rest));
    }
  }

  lemma ElementKeeps(ns: seq<Xml>, e: Xml, rest: seq<Xml>, textDepth: int, compact: bool)
    requires ns != [] && ns[0].Element? && LegalAll(ns) && e == Lay(ns[0], 0, textDepth, compact).0
    requires LegalAll(rest) && TextsBlank(rest) && HeightAll(rest) == HeightAll(ns[1..])
    requires NormAll("", rest) == NormAll("", ns[1..])
    ensures LegalAll([e] + rest) && TextsBlank([e] + rest) && HeightAll([e] + rest) == HeightAll(ns)
    ensures NormAll("", [e] + rest) == NormAll("", ns)
  {
    hide Lay;
    LayKeepsNorm(ns[0], 0, textDepth, compact);
    LayKeepsLegal(ns[0], 0, textDepth, compact);
    assert ([e] + rest)[1..] == rest;
  }

  /** Reading back a printed document gives its normal form, or the depth error when more than 98
      elements with content are nested. */
  lemma PrintThenParse(ns: seq<Xml>, compact: bool)
    requires ns != [] && AllElements(ns) && LegalAll(ns)
    ensures ParseDocument(PrintDocument(ns, compact)) ==
            if HeightAll(ns) <= 98 then Parsed(NormAll("", ns)) else ParseError(ElementDepthExceeded)
  {
    hide ParseNodes, PrintNode, Lay, Height, NormAll;
    var laid := LayDocument(ns, true, -1, compact);
    var s := PrintAll(laid);
    LayDocumentKeeps(ns, true, -1, compact);
    assert Here(s, 0, s);
    NoPending(s, 0, laid);
    NodesPrinted(s, 0, "", laid, 1, |s|);
    NothingAtTheEnd(s);
    PrependAllResult(NormAll("", laid), ParseNodes(s, |s|, 1));
    assert laid[0] == Lay(ns[0], 0, -1, compact).0;
    StartsWithMarkup(laid);
    BracketIsPlain();
    NothingToSkip(s, 0);
  }

  lemma NothingAtTheEnd(s: string)
    ensures ParseNodes(s, |s|, 1) == NodesEnd([])
  {
  }

  lemma StartsWithMarkup(laid: seq<Xml>)
    requires laid != [] && laid[0].Element?
    ensures PrintAll(laid) != "" && PrintAll(laid)[0] == '<'
  {
  }

  /** The round trip is the identity exactly on the trees without blank or adjacent text nodes that
      are not nested too deeply. */
  lemma RoundTripExact(ns: seq<Xml>, compact: bool)
    requires ns != [] && AllElements(ns) && LegalAll(ns)
    ensures ParseDocument(PrintDocument(ns, compact)) == Parsed(ns) <==>
              HeightAll(ns) <= 98 && PlainAll(false, ns)
  {
    PrintThenParse(ns, compact);
    NormAllFixesPlain(ns);
  }

  lemma NewLinePrinted(depth: nat)
    ensures PrintNode(NewLine(depth)) == ['\n'] + Spaces(depth)
  {
    NewLineBlank(depth);
    EscapeBlank(['\n'] + Spaces(depth));
  }

  /** A small element as it is written. */
  lemma Sample()
    ensures PrintNode(Element("a", [Attr("k", "1")], [Element("b", [], [])])) == "<a k=\"1\"><b/></a>"
  {
    assert PrintAll([Element("b", [], [])]) == "<b/>";
    assert PrintAttr(Attr("k", "1")) == " k=\"1\"";
    assert PrintAttrs([Attr("k", "1")]) == " k=\"1\"";
  }
}
