/**
  The white space the printer adds outside compact mode, seen as blank text nodes put into the
  tree: pretty printing a tree is compact printing of the laid-out tree, and laying out does not
  change the tree's normal form.
*/
module XmlLayout {
  import opened XmlTree

  function Spaces(depth: nat): string {
    if depth == 0 then "" else "    " + Spaces(depth - 1)
  }

  function NewLine(depth: nat): Xml {
    Text(['\n'] + Spaces(depth))
  }

  /** A node list as printed with `depth` open elements.  `textDepth` is the printer's field: it is
      negative unless a text node was printed in an element that is still open. */
  function LayAll(ns: seq<Xml>, depth: nat, textDepth: int, compact: bool): (seq<Xml>, int)
    decreases ns
  {
    if ns == [] then ([], textDepth)
    else if ns[0].Text? then
      var (rest, last) := LayAll(ns[1..], depth, depth - 1, compact);
      ([ns[0]] + rest, last)
    else
      var (first, next) := Lay(ns[0], depth, textDepth, compact);
      var (rest, last) := LayAll(ns[1..], depth, next, compact);
      (Pad(depth, textDepth, compact) + ([first] + rest), last)
  }

  function Pad(depth: nat, textDepth: int, compact: bool): seq<Xml> {
    if !compact && textDepth < 0 then [NewLine(depth)] else []
  }

  function Lay(e: Xml, depth: nat, textDepth: int, compact: bool): (r: (Xml, int))
    requires e.Element?
    ensures r.0.Element? && r.0.name == e.name && r.0.attrs == e.attrs
    decreases e
  {
    if e.children == [] then (e, Reset(depth, textDepth))
    else
      var (children, last) := LayAll(e.children, depth + 1, textDepth, compact);
      (Element(e.name, e.attrs, children + Pad(depth, last, compact)), Reset(depth, last))
  }

  function Reset(depth: nat, textDepth: int): int {
    if textDepth == depth then -1 else textDepth
  }

  lemma {:induction false} NewLineBlank(depth: nat)
    ensures Blank(['\n'] + Spaces(depth))
  {
    SpacesBlank(depth);
  }

  lemma {:induction false} SpacesBlank(depth: nat)
    ensures Blank(Spaces(depth))
  {
    if depth > 0 {
      SpacesBlank(depth - 1);
    }
  }

  /** Padding is dropped again, whether markup follows or the list ends. */
  lemma PadDropped(depth: nat, textDepth: int, compact: bool, pending: string, ns: seq<Xml>)
    requires textDepth < 0 ==> pending == ""
    requires ns == [] || ns[0].Element?
    ensures NormAll(pending, Pad(depth, textDepth, compact) + ns) == NormAll(pending, ns)
  {
    if !compact && textDepth < 0 {
      var w := ['\n'] + Spaces(depth);
      NewLineBlank(depth);
      assert "" + w == w;
      assert ([NewLine(depth)] + ns)[1..] == ns;
      assert Flush(w) == Flush("");
    } else {
      assert [] + ns == ns;
    }
  }

  lemma {:induction false} LayKeepsNorm(e: Xml, depth: nat, textDepth: int, compact: bool)
    requires e.Element?
    ensures Norm(Lay(e, depth, textDepth, compact).0) == Norm(e)
    decreases e, 1
  {
    if e.children != [] {
      var last := LayAll(e.children, depth + 1, textDepth, compact).1;
      LayAllKeepsNorm("", e.children, depth + 1, textDepth, compact, depth);
    }
  }

  lemma {:induction false} LayAllKeepsNorm(pending: string, ns: seq<Xml>, depth: nat, textDepth: int,
                                           compact: bool, outer: nat)
    requires depth > 0 && (textDepth < 0 ==> pending == "")
    ensures var (laid, last) := LayAll(ns, depth, textDepth, compact);
            NormAll(pending, laid + Pad(outer, last, compact)) == NormAll(pending, ns)
    decreases ns, 0
  {
    var (laid, last) := LayAll(ns, depth, textDepth, compact);
    var tail := Pad(outer, last, compact);
    if ns == [] {
      PadDropped(outer, textDepth, compact, pending, []);
      assert laid + tail == tail + [];
    } else if ns[0].Text? {
      var rest := LayAll(ns[1..], depth, depth - 1, compact).0;
      LayAllKeepsNorm(pending + ns[0].value, ns[1..], depth, depth - 1, compact, outer);
      assert laid + tail == [ns[0]] + (rest + tail);
      assert ([ns[0]] + (rest + tail))[1..] == rest + tail;
    } else {
      var (first, next) := Lay(ns[0], depth, textDepth, compact);
      var rest := LayAll(ns[1..], depth, next, compact).0;
      LayKeepsNorm(ns[0], depth, textDepth, compact);
      LayAllKeepsNorm("", ns[1..], depth, next, compact, outer);
      assert laid + tail == Pad(depth, textDepth, compact) + ([first] + (rest + tail));
      assert ([first] + (rest + tail))[1..] == rest + tail;
      PadDropped(depth, textDepth, compact, pending, [first] + (rest + tail));
    }
  }

  /** Laying out keeps a tree legal and its depth as it is. */
  lemma {:induction false} LayKeepsLegal(e: Xml, depth: nat, textDepth: int, compact: bool)
    requires e.Element? && Legal(e)
    ensures Legal(Lay(e, depth, textDepth, compact).0)
    ensures Height(Lay(e, depth, textDepth, compact).0) == Height(e)
    decreases e, 1
  {
    if e.children != [] {
      LayAllKeepsLegal(e.children, depth + 1, textDepth, compact, depth);
    }
  }

  lemma {:induction false} NewLineLegal(depth: nat)
    ensures LegalValue(['\n'] + Spaces(depth))
  {
    SpacesLegal(depth);
  }

  lemma {:induction false} SpacesLegal(depth: nat)
    ensures LegalValue(Spaces(depth))
  {
    if depth > 0 {
      SpacesLegal(depth - 1);
    }
  }

  lemma PadLegal(depth: nat, textDepth: int, compact: bool, ns: seq<Xml>)
    requires LegalAll(ns)
    ensures var all := Pad(depth, textDepth, compact) + ns;
            LegalAll(all) && HeightAll(all) == HeightAll(ns)
  {
    NewLineLegal(depth);
    if !compact && textDepth < 0 {
      assert ([NewLine(depth)] + ns)[1..] == ns;
    } else {
      assert [] + ns == ns;
    }
  }

  lemma LegalFirst(n: Xml, ns: seq<Xml>)
    ensures LegalAll([n] + ns) <==> Legal(n) && LegalAll(ns)
    ensures HeightAll([n] + ns) == if HeightAll(ns) < Height(n) then Height(n) else HeightAll(ns)
  {
    hide Legal, Height;
    assert ([n] + ns)[1..] == ns;
  }

  lemma {:induction false} LayAllKeepsLegal(ns: seq<Xml>, depth: nat, textDepth: int, compact: bool, outer: nat)
    requires LegalAll(ns)
    ensures var (laid, last) := LayAll(ns, depth, textDepth, compact);
            var all := laid + Pad(outer, last, compact);
            LegalAll(all) && HeightAll(all) == HeightAll(ns) && (ns != [] ==> all != [])
    decreases ns, 0
  {
    hide Lay, Legal, Height, Pad;
    var (laid, last) := LayAll(ns, depth, textDepth, compact);
    var tail := Pad(outer, last, compact);
    if ns == [] {
      assert laid + tail == tail + [];
      PadLegal(outer, textDepth, compact, []);
    } else if ns[0].Text? {
      var rest := LayAll(ns[1..], depth, depth - 1, compact).0;
      LayAllKeepsLegal(ns[1..], depth, depth - 1, compact, outer);
      assert laid + tail == [ns[0]] + (rest + tail);
      LegalFirst(ns[0], rest + tail);
    } else {
      var (first, next) := Lay(ns[0], depth, textDepth, compact);
      var rest := LayAll(ns[1..], depth, next, compact).0;
      LayKeepsLegal(ns[0], depth, textDepth, compact);
      LayAllKeepsLegal(ns[1..], depth, next, compact, outer);
      var more := [first] + (rest + tail);
      LegalFirst(first, rest + tail);
      assert laid + tail == Pad(depth, textDepth, compact) + more;
      PadLegal(depth, textDepth, compact, more);
    }
  }

  // ----- where the white space goes -----

  lemma {:induction false} FourToALevel(depth: nat)
    ensures |Spaces(depth)| == 4 * depth && forall c :: c in Spaces(depth) ==> c == ' '
  {
    if depth > 0 {
      FourToALevel(depth - 1);
    }
  }

  /** Compact printing adds nothing. */
  lemma {:induction false} CompactAddsNothing(e: Xml, depth: nat, textDepth: int)
    requires e.Element?
    ensures Lay(e, depth, textDepth, true).0 == e
    decreases e, 1
  {
    if e.children != [] {
      CompactAllAddsNothing(e.children, depth + 1, textDepth);
      assert e.children + [] == e.children;
    }
  }

  lemma {:induction false} CompactAllAddsNothing(ns: seq<Xml>, depth: nat, textDepth: int)
    ensures LayAll(ns, depth, textDepth, true).0 == ns
    decreases ns, 0
  {
    if ns == [] {
    } else if ns[0].Text? {
      CompactAllAddsNothing(ns[1..], depth, depth - 1);
      assert ns == [ns[0]] + ns[1..];
    } else {
      CompactAddsNothing(ns[0], depth, textDepth);
      CompactAllAddsNothing(ns[1..], depth, Lay(ns[0], depth, textDepth, true).1);
      assert ns == [] + ([ns[0]] + ns[1..]);
    }
  }

  /** There is no text in the tree. */
  predicate Textless(n: Xml)
    decreases n
  {
    n.Element? && AllTextless(n.children)
  }

  predicate AllTextless(ns: seq<Xml>)
    decreases ns
  {
    ns != [] ==> Textless(ns[0]) && AllTextless(ns[1..])
  }

  /** Every child begins a line, one level further in, and so does the end tag, at the level of its tag. */
  function Lined(e: Xml, depth: nat): Xml
    requires e.Element?
    decreases e
  {
    if e.children == [] then e
    else Element(e.name, e.attrs, AllLined(e.children, depth + 1) + [NewLine(depth)])
  }

  function AllLined(ns: seq<Xml>, depth: nat): seq<Xml>
    decreases ns
  {
    if ns == [] then []
    else [NewLine(depth), if ns[0].Element? then Lined(ns[0], depth) else ns[0]] + AllLined(ns[1..], depth)
  }

  /** Where there is no text, everything stands on lines of its own. */
  lemma {:induction false} TextlessIsLined(e: Xml, depth: nat)
    requires Textless(e)
    ensures Lay(e, depth, -1, false) == (Lined(e, depth), -1)
    decreases e, 1
  {
    if e.children != [] {
      AllTextlessAreLined(e.children, depth + 1);
    }
  }

  lemma {:induction false} AllTextlessAreLined(ns: seq<Xml>, depth: nat)
    requires AllTextless(ns)
    ensures LayAll(ns, depth, -1, false) == (AllLined(ns, depth), -1)
    decreases ns, 0
  {
    if ns != [] {
      var laid, rest := Lined(ns[0], depth), AllLined(ns[1..], depth);
      TextlessIsLined(ns[0], depth);
      AllTextlessAreLined(ns[1..], depth);
      assert [NewLine(depth)] + ([laid] + rest) == [NewLine(depth), laid] + rest;
    }
  }

  /** Behind text, what has no text of its own is printed as it is, until the element around it ends. */
  lemma {:induction false} BehindTextAddsNothing(ns: seq<Xml>, depth: nat, textDepth: nat, compact: bool)
    requires AllTextless(ns) && textDepth < depth
    ensures LayAll(ns, depth, textDepth, compact) == (ns, textDepth)
    decreases ns, 0
  {
    if ns != [] {
      var e := ns[0];
      if e.children != [] {
        BehindTextAddsNothing(e.children, depth + 1, textDepth, compact);
        assert e.children + [] == e.children;
      }
      BehindTextAddsNothing(ns[1..], depth, textDepth, compact);
      assert ns == [] + ([ns[0]] + ns[1..]);
    }
  }

  lemma TextIsKept(v: string, ns: seq<Xml>, e: Xml, depth: nat, textDepth: int, compact: bool)
    requires AllTextless(ns) && e.Element? && e.children == [Text(v)] + ns
    ensures Lay(e, depth, textDepth, compact) == (e, -1)
  {
    assert e.children[1..] == ns;
    BehindTextAddsNothing(ns, depth + 1, depth, compact);
    assert e.children + [] == e.children;
  }
}
