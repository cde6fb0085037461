/**
  What `XMLPrinter` writes: values escaped or, without entity processing, as they are, and values whose
  last run is longer than an `int` cut short.
*/
module XmlWriting {
  import opened XmlText
  import opened XmlTree
  import opened XmlLayout
  import opened XmlDocuments
  import XmlRoundTrip
  import Slices

  const INT_MAX := 0x7FFF_FFFF

  /** The end of the last escaped character of `v`, 0 when nothing is escaped. */
  function LastEscape(v: string, restricted: bool): (k: nat)
    ensures k <= |v|
    ensures forall i :: k <= i < |v| ==> !NeedsEscape(v[i], restricted)
    ensures k > 0 ==> NeedsEscape(v[k - 1], restricted)
  {
    if v == "" then 0
    else if NeedsEscape(v[|v| - 1], restricted) then |v|
    else LastEscape(v[..|v| - 1], restricted)
  }

  function Min(a: nat, b: nat): nat {
    if a < b then a else b
  }

  /** What `PrintString` writes: the run after the last escaped character is written by one call,
      which takes an `int` length. */
  function PrintedString(v: string, restricted: bool): string {
    var k := LastEscape(v, restricted);
    Escape(v[..k], restricted) + v[k..k + Min(INT_MAX, |v| - k)]
  }

  lemma {:induction false} EscapeOfPlain(v: string, restricted: bool)
    requires forall i :: 0 <= i < |v| ==> !NeedsEscape(v[i], restricted)
    ensures Escape(v, restricted) == v
    decreases |v|
  {
    if v != "" {
      EscapeOfPlain(v[1..], restricted);
      assert v == [v[0]] + v[1..];
    }
  }

  lemma EscapeSplit(v: string, restricted: bool)
    ensures var k := LastEscape(v, restricted);
            Escape(v, restricted) == Escape(v[..k], restricted) + v[k..]
  {
    hide Escape;
    var k := LastEscape(v, restricted);
    EscapeOfPlain(v[k..], restricted);
    assert v == v[..k] + v[k..];
    EscapeConcat(v[..k], v[k..], restricted);
  }

  /** A string is written in full exactly when its last unescaped run fits an `int`. */
  lemma PrintedInFull(v: string, restricted: bool)
    ensures PrintedString(v, restricted) == Escape(v, restricted) <==>
              |v| - LastEscape(v, restricted) <= INT_MAX
  {
    hide Escape, LastEscape;
    var k := LastEscape(v, restricted);
    EscapeSplit(v, restricted);
    if |v| - k <= INT_MAX {
      assert v[k..k + Min(INT_MAX, |v| - k)] == v[k..];
    } else {
      assert |PrintedString(v, restricted)| < |Escape(v, restricted)|;
    }
  }

  // ----- what is written of a value -----

  function WriteValue(v: string, restricted: bool, entities: bool): string {
    if entities then Escape(v, restricted) else v
  }

  /** The part of the value that is written at all. */
  function CutValue(v: string, restricted: bool, entities: bool): string {
    var k := LastEscape(v, restricted);
    if entities then v[..k + Min(INT_MAX, |v| - k)] else v
  }

  /** What `PrintString` writes is the cut value in full. */
  lemma CutIsPrinted(v: string, restricted: bool)
    ensures PrintedString(v, restricted) == WriteValue(CutValue(v, restricted, true), restricted, true)
  {
    hide Escape, LastEscape;
    var k := LastEscape(v, restricted);
    var c := CutValue(v, restricted, true);
    EscapeOfPlain(c[k..], restricted);
    assert c == v[..k] + c[k..] && c[k..] == v[k..|c|];
    EscapeConcat(v[..k], c[k..], restricted);
  }

  // ----- what is written of a tree -----

  function WriteAttr(a: Attr, entities: bool): string {
    [' '] + (a.name + (['=', '"'] + (WriteValue(a.value, false, entities) + ['"'])))
  }

  function WriteAttrs(attrs: seq<Attr>, entities: bool): string {
    if attrs == [] then "" else WriteAttr(attrs[0], entities) + WriteAttrs(attrs[1..], entities)
  }

  function WriteNode(n: Xml, entities: bool): string
    decreases n, 1
  {
    match n
    case Text(v) => WriteValue(v, true, entities)
    case Element(name, attrs, children) => ['<'] + (name + (WriteAttrs(attrs, entities) + WriteBody(n, entities)))
  }

  function WriteBody(n: Xml, entities: bool): string
    requires n.Element?
    decreases n, 0
  {
    if n.children == [] then ['/', '>']
    else ['>'] + (WriteAll(n.children, entities) + EndTag(n.name))
  }

  function WriteAll(ns: seq<Xml>, entities: bool): string
    decreases ns
  {
    if ns == [] then "" else WriteNode(ns[0], entities) + WriteAll(ns[1..], entities)
  }

  lemma {:induction false} WriteAttrsIsPrint(attrs: seq<Attr>)
    ensures WriteAttrs(attrs, true) == PrintAttrs(attrs)
  {
    if attrs != [] {
      WriteAttrsIsPrint(attrs[1..]);
    }
  }

  lemma {:induction false} WriteNodeIsPrint(n: Xml)
    ensures WriteNode(n, true) == PrintNode(n)
    decreases n
  {
    if n.Element? {
      WriteAttrsIsPrint(n.attrs);
      WriteAllIsPrint(n.children);
      assert WriteBody(n, true) == PrintBody(n);
    }
  }

  /** With entity processing this is the text that is read back. */
  lemma {:induction false} WriteAllIsPrint(ns: seq<Xml>)
    ensures WriteAll(ns, true) == PrintAll(ns)
    decreases ns
  {
    if ns != [] {
      WriteNodeIsPrint(ns[0]);
      WriteAllIsPrint(ns[1..]);
    }
  }

  // ----- the tree with its values cut -----

  function CutAttr(a: Attr, entities: bool): Attr {
    a.(value := CutValue(a.value, false, entities))
  }

  function CutAttrs(attrs: seq<Attr>, entities: bool): (r: seq<Attr>)
    ensures |r| == |attrs| && forall j :: 0 <= j < |attrs| ==> r[j] == CutAttr(attrs[j], entities)
  {
    if attrs == [] then [] else [CutAttr(attrs[0], entities)] + CutAttrs(attrs[1..], entities)
  }

  function CutNode(n: Xml, entities: bool): (r: Xml)
    ensures r.Element? <==> n.Element?
    ensures n.Element? ==> r.name == n.name
    decreases n
  {
    match n
    case Text(v) => Text(CutValue(v, true, entities))
    case Element(name, attrs, children) => Element(name, CutAttrs(attrs, entities), CutAll(children, entities))
  }

  function CutAll(ns: seq<Xml>, entities: bool): (r: seq<Xml>)
    ensures |r| == |ns| && forall j :: 0 <= j < |ns| ==> r[j] == CutNode(ns[j], entities)
    decreases ns
  {
    if ns == [] then [] else [CutNode(ns[0], entities)] + CutAll(ns[1..], entities)
  }

  lemma CutNothing(v: string, restricted: bool)
    ensures WriteValue(CutValue(v, restricted, false), restricted, false) == v
  {
  }

  lemma CutElements(ns: seq<Xml>, entities: bool)
    ensures AllElements(ns) ==> AllElements(CutAll(ns, entities))
  {
    hide CutAll, CutNode;
  }

  function WriteDocument(ns: seq<Xml>, compact: bool, entities: bool): string
    requires AllElements(ns)
  {
    CutElements(ns, entities);
    WriteAll(LayDocument(CutAll(ns, entities), true, -1, compact), entities)
  }

  // ----- the text of laid-out trees, step by step -----

  lemma PrintedInThree(lead: seq<Xml>, e: Xml, trail: seq<Xml>, rest: seq<Xml>, entities: bool)
    ensures WriteAll(lead + ([e] + (trail + rest)), entities) ==
            WriteAll(lead, entities) + (WriteNode(e, entities) + (WriteAll(trail, entities) + WriteAll(rest, entities)))
  {
    hide WriteNode;
    WriteAllConcat(lead, [e] + (trail + rest), entities);
    WriteAllConcat(trail, rest, entities);
    assert ([e] + (trail + rest))[1..] == trail + rest;
  }

  lemma LeadingText(first: bool, textDepth: int, compact: bool, entities: bool)
    ensures WriteAll(LeadingPad(first, textDepth, compact), entities) ==
            if compact || first then "" else if textDepth < 0 then ['\n'] + Spaces(0) else ""
  {
    PadText(0, textDepth, compact, entities);
  }

  /** One top-level element and what follows it. */
  lemma DocumentStep(b: string, ns: seq<Xml>, j: nat, textDepth: int, compact: bool, entities: bool)
    requires AllElements(ns) && j < |ns|
    ensures var (e, next) := Lay(ns[j], 0, textDepth, compact);
            var indentation := if compact || j == 0 then "" else if textDepth < 0 then ['\n'] + Spaces(0) else "";
            b + WriteAll(LayDocument(ns[j..], j == 0, textDepth, compact), entities) ==
            (b + ("" + indentation + (WriteNode(e, entities) + if compact then "" else "\n"))) +
              WriteAll(LayDocument(ns[j + 1..], false, next, compact), entities)
  {
    hide Lay, WriteNode, WriteAll, LeadingPad, TrailingPad;
    var (e, next) := Lay(ns[j], 0, textDepth, compact);
    Slices.DropRest(ns, j, 1);
    LeadingText(j == 0, textDepth, compact, entities);
    TrailingText(compact, entities);
    PrintedInThree(LeadingPad(j == 0, textDepth, compact), e, TrailingPad(compact),
                   LayDocument(ns[j + 1..], false, next, compact), entities);
  }

  lemma TrailingText(compact: bool, entities: bool)
    ensures WriteAll(TrailingPad(compact), entities) == if compact then "" else "\n"
  {
  }

  lemma DocumentEnd(ns: seq<Xml>, textDepth: int, compact: bool, b: string, entities: bool)
    requires AllElements(ns)
    ensures b + WriteAll(LayDocument(ns[|ns|..], |ns| == 0, textDepth, compact), entities) == b
  {
  }

  /** What the children print, with the end of the opening tag. */
  function ContentText(e: Xml, depth: nat, textDepth: int, compact: bool, entities: bool): string
    requires e.Element?
  {
    if e.children == [] then "" else ">" + WriteAll(LayAll(e.children, depth + 1, textDepth, compact).0, entities)
  }

  lemma LayEnd(e: Xml, depth: nat, textDepth: int, compact: bool)
    requires e.Element?
    ensures Lay(e, depth, textDepth, compact).1 ==
            Reset(depth, LayAll(e.children, depth + 1, textDepth, compact).1)
  {
  }

  /** The printer has `written` the first `j` nodes and stands at text depth `now`. */
  ghost predicate Progress(ns: seq<Xml>, j: nat, depth: nat, textDepth: int, now: int, compact: bool, written: string,
                           entities: bool) {
    && j <= |ns|
    && (j == 0 ==> written == "")
    && written + WriteAll(LayAll(ns[j..], depth, now, compact).0, entities) ==
       WriteAll(LayAll(ns, depth, textDepth, compact).0, entities)
    && LayAll(ns[j..], depth, now, compact).1 == LayAll(ns, depth, textDepth, compact).1
  }

  lemma ProgressAtFirst(ns: seq<Xml>, depth: nat, textDepth: int, compact: bool, entities: bool)
    ensures Progress(ns, 0, depth, textDepth, textDepth, compact, "", entities)
  {
    assert ns[0..] == ns;
  }

  lemma ProgressStep(ns: seq<Xml>, j: nat, depth: nat, textDepth: int, now: int, compact: bool, written: string,
                     entities: bool)
    requires j < |ns| && Progress(ns, j, depth, textDepth, now, compact, written, entities)
    ensures j == 0 ==> written == ""
    ensures Progress(ns, j + 1, depth, textDepth, NextTextDepth(ns[j], depth, now, compact), compact,
                     written + NodeText(ns[j], depth, now, compact, entities), entities)
  {
    hide LayAll, WriteAll, NodeText, NextTextDepth;
    LayStep(ns, j, depth, now, compact, entities);
    var a, b := NodeText(ns[j], depth, now, compact, entities),
                WriteAll(LayAll(ns[j + 1..], depth, NextTextDepth(ns[j], depth, now, compact), compact).0, entities);
    assert written + (a + b) == written + a + b;
  }

  lemma ProgressEnd(ns: seq<Xml>, depth: nat, textDepth: int, now: int, compact: bool, written: string,
                     entities: bool)
    requires Progress(ns, |ns|, depth, textDepth, now, compact, written, entities)
    ensures written == WriteAll(LayAll(ns, depth, textDepth, compact).0, entities)
    ensures now == LayAll(ns, depth, textDepth, compact).1
  {
  }

  lemma AttrsStep(attrs: seq<Attr>, j: nat, entities: bool)
    requires j < |attrs|
    ensures WriteAttrs(attrs[j..], entities) == WriteAttr(attrs[j], entities) + WriteAttrs(attrs[j + 1..], entities)
  {
  }

  lemma {:induction false} WriteAllConcat(a: seq<Xml>, b: seq<Xml>, entities: bool)
    ensures WriteAll(a + b, entities) == WriteAll(a, entities) + WriteAll(b, entities)
    decreases |a|
  {
    hide WriteNode;
    if a == [] {
      assert a + b == b;
    } else {
      assert (a + b)[1..] == a[1..] + b;
      WriteAllConcat(a[1..], b, entities);
    }
  }

  /** The text of one node of a list, with the white space before it. */
  function NodeText(n: Xml, depth: nat, textDepth: int, compact: bool, entities: bool): string {
    if n.Text? then WriteValue(n.value, true, entities)
    else WriteAll(Pad(depth, textDepth, compact), entities)
         + WriteNode(Lay(n, depth, textDepth, compact).0, entities)
  }

  function NextTextDepth(n: Xml, depth: nat, textDepth: int, compact: bool): int {
    if n.Text? then depth - 1 else Lay(n, depth, textDepth, compact).1
  }

  lemma LayStep(ns: seq<Xml>, j: nat, depth: nat, textDepth: int, compact: bool, entities: bool)
    requires j < |ns|
    ensures var next := NextTextDepth(ns[j], depth, textDepth, compact);
            && LayAll(ns[j..], depth, textDepth, compact).1 == LayAll(ns[j + 1..], depth, next, compact).1
            && WriteAll(LayAll(ns[j..], depth, textDepth, compact).0, entities) ==
               NodeText(ns[j], depth, textDepth, compact, entities)
               + WriteAll(LayAll(ns[j + 1..], depth, next, compact).0, entities)
  {
    hide Lay, Pad, WriteValue, WriteNode, WriteAll;
    Slices.DropRest(ns, j, 1);
    var next := NextTextDepth(ns[j], depth, textDepth, compact);
    var rest := LayAll(ns[j + 1..], depth, next, compact).0;
    if ns[j].Text? {
      WriteAllOne(ns[j], rest, entities);
    } else {
      var e := Lay(ns[j], depth, textDepth, compact).0;
      WriteAllConcat(Pad(depth, textDepth, compact), [e] + rest, entities);
      WriteAllOne(e, rest, entities);
    }
  }

  lemma WriteAllOne(n: Xml, rest: seq<Xml>, entities: bool)
    ensures WriteAll([n] + rest, entities) == WriteNode(n, entities) + WriteAll(rest, entities)
    ensures n.Text? ==> WriteNode(n, entities) == WriteValue(n.value, true, entities)
  {
    assert ([n] + rest)[1..] == rest;
  }

  lemma PadText(depth: nat, textDepth: int, compact: bool, entities: bool)
    ensures WriteAll(Pad(depth, textDepth, compact), entities) ==
            if !compact && textDepth < 0 then ['\n'] + Spaces(depth) else ""
  {
    if !compact && textDepth < 0 {
      var w := ['\n'] + Spaces(depth);
      NewLineBlank(depth);
      XmlRoundTrip.EscapeBlank(w);
      assert [NewLine(depth)][1..] == [];
      assert WriteAll([NewLine(depth)], entities) == WriteNode(NewLine(depth), entities) + WriteAll([], entities);
    }
  }

  /** What the children and the end of an element print is its laid-out body. */
  lemma ElementText(e: Xml, depth: nat, textDepth: int, compact: bool, closing: string, entities: bool)
    requires e.Element?
    requires closing ==
             if e.children == [] then ['/', '>']
             else (if LayAll(e.children, depth + 1, textDepth, compact).1 < 0 && !compact
                   then ['\n'] + Spaces(depth) else "") + EndTag(e.name)
    ensures WriteNode(Lay(e, depth, textDepth, compact).0, entities) ==
            ['<'] + (e.name + (WriteAttrs(e.attrs, entities)
                               + (ContentText(e, depth, textDepth, compact, entities) + closing)))
  {
    hide LayAll, WriteAll, WriteAttrs, Spaces, EndTag, Pad;
    if e.children == [] {
      assert "" + closing == closing;
    } else {
      var (laid, last) := LayAll(e.children, depth + 1, textDepth, compact);
      LayNotEmpty(e.children, depth + 1, textDepth, compact);
      PadText(depth, last, compact, entities);
      WriteAllConcat(laid, Pad(depth, last, compact), entities);
      var pad := WriteAll(Pad(depth, last, compact), entities);
      var w := WriteAll(laid, entities);
      assert [">"[0]] + ((w + pad) + EndTag(e.name)) == (">" + w) + (pad + EndTag(e.name));
    }
  }

  lemma LayNotEmpty(ns: seq<Xml>, depth: nat, textDepth: int, compact: bool)
    requires ns != []
    ensures LayAll(ns, depth, textDepth, compact).0 != []
  {
  }

  lemma Assemble(b: string, start: string, name: string, attrs: string, content: string, closing: string, end: string)
    ensures b + (start + (['<'] + name)) + attrs + content + (closing + end) ==
            b + (start + ((['<'] + (name + (attrs + (content + closing)))) + end))
  {
  }

  lemma AttrText(b: string, a: Attr, entities: bool)
    ensures b + [' '] + a.name + ['=', '"'] + WriteValue(a.value, false, entities) + ['"'] == b + WriteAttr(a, entities)
  {
  }

  /** What the loop over a string knows at `q` when the last character it escaped is the one before `p`. */
  predicate RunFrom(v: string, p: nat, q: nat, restricted: bool) {
    && p <= q <= |v| && (p > 0 ==> NeedsEscape(v[p - 1], restricted))
    && forall i :: p <= i < q ==> !NeedsEscape(v[i], restricted)
  }

  lemma EscapePlainRun(v: string, p: nat, q: nat, restricted: bool)
    requires p <= q <= |v| && forall i :: p <= i < q ==> !NeedsEscape(v[i], restricted)
    ensures Escape(v[..q], restricted) == Escape(v[..p], restricted) + v[p..q]
  {
    hide Escape, NeedsEscape;
    EscapeOfPlain(v[p..q], restricted);
    assert v[..q] == v[..p] + v[p..q];
    EscapeConcat(v[..p], v[p..q], restricted);
  }

  lemma EscapeOneMore(v: string, q: nat, restricted: bool)
    requires q < |v|
    ensures Escape(v[..q + 1], restricted) == Escape(v[..q], restricted) + EscapeChar(v[q], restricted)
  {
    hide EscapeChar;
    assert v[..q + 1] == v[..q] + [v[q]];
    EscapeConcat(v[..q], [v[q]], restricted);
    assert Escape([v[q]], restricted) == EscapeChar(v[q], restricted) + Escape([], restricted);
  }

  lemma EscapeRun(v: string, p: nat, q: nat, restricted: bool)
    requires RunFrom(v, p, q, restricted) && q < |v| && NeedsEscape(v[q], restricted)
    ensures RunFrom(v, q + 1, q + 1, restricted)
    ensures Escape(v[..q + 1], restricted) == Escape(v[..p], restricted) + (v[p..q] + EscapeChar(v[q], restricted))
  {
    hide Escape, EscapeChar, NeedsEscape;
    EscapePlainRun(v, p, q, restricted);
    EscapeOneMore(v, q, restricted);
  }

  lemma RunGoesOn(v: string, p: nat, q: nat, restricted: bool)
    requires RunFrom(v, p, q, restricted) && q < |v| && !NeedsEscape(v[q], restricted)
    ensures RunFrom(v, p, q + 1, restricted)
  {
  }

  lemma LastRun(v: string, p: nat, restricted: bool)
    requires RunFrom(v, p, |v|, restricted)
    ensures p <= |v|
    ensures PrintedString(v, restricted) == Escape(v[..p], restricted) + v[p..p + Min(INT_MAX, |v| - p)]
  {
    assert LastEscape(v, restricted) == p;
  }

  lemma NothingEscaped(v: string, restricted: bool)
    ensures Escape(v[..0], restricted) == "" && RunFrom(v, 0, 0, restricted)
  {
  }

  // ----- when a document is written in full -----

  lemma ValueShorter(v: string, restricted: bool)
    ensures var c := CutValue(v, restricted, true);
            && |WriteValue(c, restricted, true)| <= |WriteValue(v, restricted, true)|
            && (c != v ==> |WriteValue(c, restricted, true)| < |WriteValue(v, restricted, true)|)
            && (c == v <==> |v| - LastEscape(v, restricted) <= INT_MAX)
  {
    hide Escape, LastEscape;
    EscapeSplit(v, restricted);
    CutIsPrinted(v, restricted);
  }

  lemma {:induction false} AttrsShorter(attrs: seq<Attr>)
    ensures var c := CutAttrs(attrs, true);
            && |WriteAttrs(c, true)| <= |WriteAttrs(attrs, true)|
            && (c != attrs ==> |WriteAttrs(c, true)| < |WriteAttrs(attrs, true)|)
  {
    hide WriteValue, CutValue;
    if attrs != [] {
      ValueShorter(attrs[0].value, false);
      AttrsShorter(attrs[1..]);
      assert CutAttrs(attrs, true)[1..] == CutAttrs(attrs[1..], true);
      assert attrs == [attrs[0]] + attrs[1..];
    }
  }

  lemma {:induction false} LayAllShorter(ns: seq<Xml>, depth: nat, textDepth: int, compact: bool)
    ensures var c := CutAll(ns, true);
            var (laid, last) := LayAll(ns, depth, textDepth, compact);
            var (short, last') := LayAll(c, depth, textDepth, compact);
            && last' == last && |WriteAll(short, true)| <= |WriteAll(laid, true)|
            && (c != ns ==> |WriteAll(short, true)| < |WriteAll(laid, true)|)
    decreases ns
  {
    hide WriteValue, CutValue, Lay, Pad, CutAttrs;
    if ns != [] {
      var c := CutAll(ns, true);
      assert c[1..] == CutAll(ns[1..], true) && ns == [ns[0]] + ns[1..] && c == [c[0]] + c[1..];
      var next := NextTextDepth(ns[0], depth, textDepth, compact);
      LayAllShorter(ns[1..], depth, next, compact);
      assert ns[0..] == ns && c[0..] == c;
      if ns[0].Text? {
        ValueShorter(ns[0].value, true);
      } else {
        LayShorter(ns[0], depth, textDepth, compact);
      }
      LayStep(ns, 0, depth, textDepth, compact, true);
      LayStep(c, 0, depth, textDepth, compact, true);
    }
  }

  lemma {:induction false} LayShorter(e: Xml, depth: nat, textDepth: int, compact: bool)
    requires e.Element?
    ensures var c := CutNode(e, true);
            var (laid, last) := Lay(e, depth, textDepth, compact);
            var (short, last') := Lay(c, depth, textDepth, compact);
            && last' == last && |WriteNode(short, true)| <= |WriteNode(laid, true)|
            && (c != e ==> |WriteNode(short, true)| < |WriteNode(laid, true)|)
    decreases e
  {
    hide WriteAttrs, CutAttrs, Pad, LayAll, WriteAll;
    AttrsShorter(e.attrs);
    if e.children != [] {
      var c := CutAll(e.children, true);
      LayAllShorter(e.children, depth + 1, textDepth, compact);
      var (laid, last) := LayAll(e.children, depth + 1, textDepth, compact);
      var short := LayAll(c, depth + 1, textDepth, compact).0;
      LayNotEmpty(e.children, depth + 1, textDepth, compact);
      LayNotEmpty(c, depth + 1, textDepth, compact);
      WriteAllConcat(laid, Pad(depth, last, compact), true);
      WriteAllConcat(short, Pad(depth, last, compact), true);
    }
  }

  lemma {:induction false} DocumentShorter(ns: seq<Xml>, first: bool, textDepth: int, compact: bool)
    requires AllElements(ns)
    ensures var c := CutAll(ns, true);
            var laid := |WriteAll(LayDocument(ns, first, textDepth, compact), true)|;
            var short := |WriteAll(LayDocument(c, first, textDepth, compact), true)|;
            short <= laid && (c != ns ==> short < laid)
    decreases |ns|
  {
    hide Lay, WriteNode, CutNode, LeadingPad, TrailingPad;
    if ns != [] {
      var c := CutAll(ns, true);
      assert c[1..] == CutAll(ns[1..], true) && ns == [ns[0]] + ns[1..] && c == [c[0]] + c[1..];
      var (e, next) := Lay(ns[0], 0, textDepth, compact);
      var e' := Lay(c[0], 0, textDepth, compact).0;
      LayShorter(ns[0], 0, textDepth, compact);
      DocumentShorter(ns[1..], false, next, compact);
      var lead, trail := LeadingPad(first, textDepth, compact), TrailingPad(compact);
      PrintedInThree(lead, e, trail, LayDocument(ns[1..], false, next, compact), true);
      PrintedInThree(lead, e', trail, LayDocument(c[1..], false, next, compact), true);
    }
  }

  /** The last unescaped run of every value fits an `int`. */
  predicate RunFits(v: string, restricted: bool) {
    |v| - LastEscape(v, restricted) <= INT_MAX
  }

  predicate Fits(n: Xml)
    decreases n
  {
    match n
    case Text(v) => RunFits(v, true)
    case Element(_, attrs, children) =>
      (forall j :: 0 <= j < |attrs| ==> RunFits(attrs[j].value, false)) && FitsAll(children)
  }

  predicate FitsAll(ns: seq<Xml>)
    decreases ns
  {
    ns == [] || (Fits(ns[0]) && FitsAll(ns[1..]))
  }

  lemma {:induction false} CutSame(n: Xml)
    ensures CutNode(n, true) == n <==> Fits(n)
    decreases n
  {
    hide CutValue, LastEscape;
    match n
    case Text(v) => ValueShorter(v, true);
    case Element(_, attrs, children) =>
      forall j | 0 <= j < |attrs|
        ensures CutAttr(attrs[j], true) == attrs[j] <==> RunFits(attrs[j].value, false)
      {
        ValueShorter(attrs[j].value, false);
      }
      assert CutAttrs(attrs, true) == attrs <==> forall j :: 0 <= j < |attrs| ==> CutAttr(attrs[j], true) == attrs[j];
      CutAllSame(children);
  }

  lemma {:induction false} CutAllSame(ns: seq<Xml>)
    ensures CutAll(ns, true) == ns <==> FitsAll(ns)
    decreases ns
  {
    hide CutNode, Fits;
    if ns != [] {
      CutSame(ns[0]);
      CutAllSame(ns[1..]);
      assert ns == [ns[0]] + ns[1..];
      assert CutAll(ns, true)[0] == CutNode(ns[0], true) && CutAll(ns, true)[1..] == CutAll(ns[1..], true);
    }
  }

  /** A document that processes entities is written in full exactly when the last run of each of its
      values fits an `int`. */
  lemma WrittenInFull(ns: seq<Xml>, compact: bool)
    requires AllElements(ns)
    ensures WriteDocument(ns, compact, true) == PrintDocument(ns, compact) <==> FitsAll(ns)
  {
    hide Lay, WriteNode, PrintNode, CutNode, LayDocument;
    WriteAllIsPrint(LayDocument(ns, true, -1, compact));
    DocumentShorter(ns, true, -1, compact);
    CutAllSame(ns);
  }
}
