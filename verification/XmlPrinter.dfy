/**
  `XMLPrinter` printing into memory.  The buffer's terminating NUL is left implicit, and the
  buffer grows without a limit of its own.
*/
module XmlPrinter {
  import opened XmlText
  import opened XmlTree
  import opened XmlLayout
  import opened XmlDocuments
  import opened XmlWriting
  import Slices

  class XMLPrinter {
    var elementJustOpened: bool
    var stack: seq<string>
    var firstElement: bool
    var depth: nat
    var textDepth: int
    var processEntities: bool
    var compactMode: bool
    var buffer: string

    constructor (compact: bool)
      ensures buffer == "" && stack == [] && depth == 0 && textDepth == -1
      ensures !elementJustOpened && firstElement && processEntities && compactMode == compact
    {
      elementJustOpened, firstElement, processEntities, compactMode := false, true, true, compact;
      stack, depth, textDepth, buffer := [], 0, -1, "";
    }

    method Write(data: string)
      modifies this`buffer
      ensures buffer == old(buffer) + data
    {
      buffer := buffer + data;
    }

    method Putc(ch: char)
      modifies this`buffer
      ensures buffer == old(buffer) + [ch]
    {
      buffer := buffer + [ch];
    }

    method PrintSpace(n: nat)
      modifies this`buffer
      ensures buffer == old(buffer) + Spaces(n)
    {
      var i := 0;
      while i < n
        invariant i <= n
        invariant buffer + Spaces(n - i) == old(buffer) + Spaces(n)
      {
        ghost var b := buffer;
        Write("    ");
        assert buffer + Spaces(n - i - 1) == b + ("    " + Spaces(n - i - 1));
        i := i + 1;
      }
      assert buffer + Spaces(0) == buffer;
    }

    /** Writes `v[p..q]` in pieces whose length fits an `int`. */
    method FlushRun(v: string, p: nat, q: nat)
      requires p <= q <= |v|
      modifies this`buffer
      ensures buffer == old(buffer) + v[p..q]
    {
      var k := p;
      while k < q
        invariant p <= k <= q
        invariant buffer == old(buffer) + v[p..k]
      {
        var toPrint := if INT_MAX < q - k then INT_MAX else q - k;
        Write(v[k..k + toPrint]);
        assert v[p..k] + v[k..k + toPrint] == v[p..k + toPrint];
        k := k + toPrint;
      }
    }

    method PrintEntity(c: char, restricted: bool)
      requires NeedsEscape(c, restricted)
      modifies this`buffer
      ensures buffer == old(buffer) + EscapeChar(c, restricted)
    {
      hide EntityFor;
      EntityForEscaped(c, restricted);
      Write("&" + EntityFor(c, 0).value.pattern + ";");
    }

    /** Writes the run before an escaped character, and its entity. */
    method PrintUpTo(v: string, p: nat, q: nat, restricted: bool)
      requires p <= q < |v| && NeedsEscape(v[q], restricted)
      modifies this`buffer
      ensures buffer == old(buffer) + (v[p..q] + EscapeChar(v[q], restricted))
    {
      hide EscapeChar, NeedsEscape;
      FlushRun(v, p, q);
      PrintEntity(v[q], restricted);
    }

    method PrintString(v: string, restricted: bool)
      modifies this`buffer
      ensures buffer == old(buffer) + if processEntities then PrintedString(v, restricted) else v
    {
      hide Escape, EscapeChar, NeedsEscape, PrintedString, RunFrom;
      if processEntities {
        var p, q := 0, 0;
        ghost var written := "";
        NothingEscaped(v, restricted);
        while q < |v|
          invariant p <= q <= |v| && RunFrom(v, p, q, restricted)
          invariant written == Escape(v[..p], restricted) && buffer == old(buffer) + written
        {
          if NeedsEscape(v[q], restricted) {
            EscapeRun(v, p, q, restricted);
            PrintUpTo(v, p, q, restricted);
            written := written + (v[p..q] + EscapeChar(v[q], restricted));
            p := q + 1;
          } else {
            RunGoesOn(v, p, q, restricted);
          }
          q := q + 1;
        }
        LastRun(v, p, restricted);
        if p < q {
          var toPrint := if INT_MAX < q - p then INT_MAX else q - p;
          Write(v[p..p + toPrint]);
        }
      } else {
        Write(v);
      }
    }

    /** What is written before the name of a node: the end of the tag just opened, if any. */
    function SealText(): string
      reads this
    {
      if elementJustOpened then ">" else ""
    }

    /** The white space an element starts with. */
    function Indentation(compact: bool): string
      reads this
    {
      if compact then ""
      else if firstElement then Spaces(depth)
      else if textDepth < 0 then ['\n'] + Spaces(depth)
      else ""
    }

    method SealElementIfJustOpened()
      modifies this`buffer, this`elementJustOpened
      ensures buffer == old(buffer) + old(SealText()) && !elementJustOpened
    {
      if !elementJustOpened { return; }
      elementJustOpened := false;
      Putc('>');
    }

    method WriteNewLine(n: nat)
      modifies this`buffer
      ensures buffer == old(buffer) + (['\n'] + Spaces(n))
    {
      Putc('\n');
      PrintSpace(n);
      Slices.Assoc(old(buffer), ['\n'], Spaces(n));
    }

    /** The part of `PrepareForNewNode` after the tag is sealed. */
    method WriteIndentation(compact: bool)
      modifies this`buffer, this`firstElement
      ensures buffer == old(buffer) + old(Indentation(compact))
      ensures firstElement == (old(firstElement) && compact)
    {
      hide Spaces;
      if compact { return; }
      if firstElement {
        PrintSpace(depth);
      } else if textDepth < 0 {
        WriteNewLine(depth);
      }
      firstElement := false;
    }

    method PrepareForNewNode(compact: bool)
      modifies this`buffer, this`elementJustOpened, this`firstElement
      ensures buffer == old(buffer) + (old(SealText()) + old(Indentation(compact)))
      ensures !elementJustOpened && firstElement == (old(firstElement) && compact)
    {
      hide Spaces;
      ghost var b, seal, indentation := buffer, SealText(), Indentation(compact);
      SealElementIfJustOpened();
      WriteIndentation(compact);
      Slices.Assoc(b, seal, indentation);
    }

    method OpenElement(name: string, compact: bool)
      modifies this
      ensures buffer == old(buffer) + (old(SealText()) + old(Indentation(compact)) + (['<'] + name))
      ensures elementJustOpened && stack == old(stack) + [name] && depth == old(depth) + 1
      ensures firstElement == (old(firstElement) && compact)
      ensures textDepth == old(textDepth) && processEntities == old(processEntities) && compactMode == old(compactMode)
    {
      hide Spaces;
      ghost var b, start := buffer, SealText() + Indentation(compact);
      PrepareForNewNode(compact);
      stack := stack + [name];
      Write(['<']);
      Write(name);
      elementJustOpened := true;
      depth := depth + 1;
      Slices.Regroup(b, start, ['<'], name);
    }

    method PushAttribute(a: Attr)
      requires elementJustOpened
      modifies this`buffer
      ensures buffer == old(buffer) + WriteAttr(CutAttr(a, processEntities), processEntities)
    {
      CutIsPrinted(a.value, false);
      ghost var b := buffer;
      Putc(' ');
      Write(a.name);
      Write(['=', '"']);
      PrintString(a.value, false);
      Putc('"');
      AttrText(b, CutAttr(a, processEntities), processEntities);
    }

    method WriteEndTag(name: string)
      modifies this`buffer
      ensures buffer == old(buffer) + EndTag(name)
    {
      Write(['<', '/']);
      Write(name);
      Write(['>']);
    }

    method WriteClosing(name: string, compact: bool)
      modifies this`buffer
      ensures buffer == old(buffer) +
                if elementJustOpened then ['/', '>']
                else (if textDepth < 0 && !compact then ['\n'] + Spaces(depth) else "") + EndTag(name)
    {
      hide Spaces, EndTag;
      if elementJustOpened {
        Write(['/', '>']);
      } else {
        ghost var b, pad := buffer, if textDepth < 0 && !compact then ['\n'] + Spaces(depth) else "";
        if textDepth < 0 && !compact {
          WriteNewLine(depth);
        }
        assert buffer == b + pad;
        WriteEndTag(name);
        Slices.Assoc(b, pad, EndTag(name));
      }
    }

    method CloseElement(compact: bool)
      requires stack != [] && depth >= 1
      modifies this
      ensures stack == old(stack)[..|old(stack)| - 1] && depth == old(depth) - 1 && !elementJustOpened
      ensures firstElement == old(firstElement) && processEntities == old(processEntities)
      ensures compactMode == old(compactMode)
      ensures textDepth == Reset(depth, old(textDepth))
      ensures buffer == old(buffer) + (old(CloseText(compact)) + if depth == 0 && !compact then "\n" else "")
    {
      hide Spaces, EndTag;
      ghost var b, closing := buffer, CloseText(compact);
      depth := depth - 1;
      var name := stack[|stack| - 1];
      stack := stack[..|stack| - 1];
      WriteClosing(name, compact);
      if textDepth == depth {
        textDepth := -1;
      }
      if depth == 0 && !compact {
        Putc('\n');
      }
      elementJustOpened := false;
      Slices.Assoc(b, closing, if depth == 0 && !compact then "\n" else "");
    }

    function CloseText(compact: bool): string
      reads this
      requires stack != [] && depth >= 1
    {
      if elementJustOpened then ['/', '>']
      else (if textDepth < 0 && !compact then ['\n'] + Spaces(depth - 1) else "") + EndTag(stack[|stack| - 1])
    }

    /** What is written for the value of a text node. */
    function Shown(text: string): string
      reads `processEntities
    {
      WriteValue(CutValue(text, true, processEntities), true, processEntities)
    }

    method PushText(text: string)
      modifies this`buffer, this`elementJustOpened, this`textDepth
      ensures buffer == old(buffer) + (old(SealText()) + Shown(text))
      ensures !elementJustOpened && textDepth == depth - 1
    {
      ghost var b, seal := buffer, SealText();
      textDepth := depth - 1;
      SealElementIfJustOpened();
      hide WriteValue, PrintedString, CutValue;
      CutIsPrinted(text, true);
      CutNothing(text, true);
      PrintString(text, true);
      Slices.Assoc(b, seal, Shown(text));
    }

    /** The attribute loop of `VisitEnter`. */
    method PushAttributes(attrs: seq<Attr>)
      requires elementJustOpened
      modifies this`buffer
      ensures buffer == old(buffer) + WriteAttrs(CutAttrs(attrs, processEntities), processEntities)
    {
      hide WriteAttr, CutAttrs, CutAttr;
      var j := 0;
      ghost var written, cut := "", CutAttrs(attrs, processEntities);
      assert cut[0..] == cut;
      while j < |attrs|
        invariant j <= |attrs|
        invariant written + WriteAttrs(cut[j..], processEntities) == WriteAttrs(cut, processEntities)
        invariant buffer == old(buffer) + written
      {
        PushAttribute(attrs[j]);
        AttrsStep(cut, j, processEntities);
        written := written + WriteAttr(cut[j], processEntities);
        j := j + 1;
      }
      assert written + WriteAttrs(cut[j..], processEntities) == written;
    }

    /** `Accept` on the children of an open element. */
    method AcceptAll(ns: seq<Xml>)
      requires depth >= 1 && (compactMode || !firstElement)
      modifies this
      ensures var cut := CutAll(ns, processEntities);
              && textDepth == LayAll(cut, depth, old(textDepth), compactMode).1
              && buffer == old(buffer) + if ns == [] then ""
                   else old(SealText()) + WriteAll(LayAll(cut, depth, old(textDepth), compactMode).0, processEntities)
      ensures elementJustOpened == (old(elementJustOpened) && ns == [])
      ensures depth == old(depth) && stack == old(stack) && firstElement == old(firstElement)
      ensures processEntities == old(processEntities) && compactMode == old(compactMode)
      decreases ns, 0
    {
      hide Lay, LayAll, WriteNode, WriteAll, CutAll, CutNode, WriteValue, NodeText, Progress, NextTextDepth;
      var j := 0;
      ghost var seal, written := SealText(), "";
      ghost var d, td, c, e := depth, textDepth, compactMode, processEntities;
      ghost var cut := CutAll(ns, e);
      ProgressAtFirst(cut, d, td, c, e);
      while j < |ns|
        invariant j <= |ns|
        invariant Progress(cut, j, d, td, textDepth, c, written, e)
        invariant buffer == old(buffer) + if j == 0 then "" else seal + written
        invariant elementJustOpened == (old(elementJustOpened) && j == 0)
        invariant depth == d && stack == old(stack) && firstElement == old(firstElement)
        invariant processEntities == e && compactMode == c
      {
        ghost var before, b, w := textDepth, buffer, NodeText(cut[j], d, textDepth, c, e);
        assert ns[j] in ns;
        ProgressStep(cut, j, d, td, before, c, written, e);
        AcceptNode(ns[j]);
        Slices.Assoc(seal, written, w);
        written := written + w;
        j := j + 1;
      }
      ProgressEnd(cut, d, td, textDepth, c, written, e);
    }

    /** One child: the end of the parent's tag, if it is still open, then the node's text. */
    method AcceptNode(n: Xml)
      requires depth >= 1 && (compactMode || !firstElement)
      modifies this
      ensures var cut := CutNode(n, processEntities);
              && textDepth == NextTextDepth(cut, depth, old(textDepth), compactMode)
              && buffer == old(buffer)
                           + (old(SealText()) + NodeText(cut, depth, old(textDepth), compactMode, processEntities))
      ensures !elementJustOpened
      ensures depth == old(depth) && stack == old(stack) && firstElement == old(firstElement)
      ensures processEntities == old(processEntities) && compactMode == old(compactMode)
      decreases n, 2
    {
      hide Lay, LayAll, WriteNode, WriteAll, WriteValue, CutValue, Spaces;
      if n.Text? {
        PushText(n.value);
      } else {
        ghost var seal, pad := SealText(), Indentation(compactMode);
        ghost var w := WriteNode(Lay(CutNode(n, processEntities), depth, textDepth, compactMode).0, processEntities);
        PadText(depth, textDepth, compactMode, processEntities);
        AcceptElement(n);
        assert w + "" == w;
        Slices.Assoc(seal, pad, w);
      }
    }

    /** `VisitEnter` on an element. */
    method VisitEnter(e: Xml)
      requires e.Element?
      modifies this
      ensures buffer == old(buffer) + (old(SealText()) + old(Indentation(compactMode)) + (['<'] + e.name))
                        + WriteAttrs(CutAttrs(e.attrs, processEntities), processEntities)
      ensures elementJustOpened && stack == old(stack) + [e.name] && depth == old(depth) + 1
      ensures firstElement == (old(firstElement) && compactMode)
      ensures textDepth == old(textDepth) && processEntities == old(processEntities) && compactMode == old(compactMode)
    {
      OpenElement(e.name, compactMode);
      PushAttributes(e.attrs);
    }

    /** `Accept` on an element: `VisitEnter`, the children, `VisitExit`. */
    method AcceptElement(e: Xml)
      requires e.Element?
      modifies this
      ensures var cut := CutNode(e, processEntities);
              && textDepth == Lay(cut, depth, old(textDepth), compactMode).1
              && buffer == old(buffer) + (old(SealText()) + old(Indentation(compactMode)) +
                             (WriteNode(Lay(cut, depth, old(textDepth), compactMode).0, processEntities) +
                              if depth == 0 && !compactMode then "\n" else ""))
      ensures !elementJustOpened
      ensures depth == old(depth) && stack == old(stack) && firstElement == (old(firstElement) && compactMode)
      ensures processEntities == old(processEntities) && compactMode == old(compactMode)
      decreases e, 1
    {
      hide LayAll, WriteAll, WriteAttrs, WriteNode, Lay, Spaces, CutAll, CutAttrs;
      ghost var d, td, c, p := depth, textDepth, compactMode, processEntities;
      ghost var cut := CutNode(e, p);
      ghost var start := SealText() + Indentation(c);
      ghost var b := buffer;
      VisitEnter(e);
      AcceptAll(e.children);
      ghost var content := ContentText(cut, d, td, c, p);
      ghost var closing := CloseText(c);
      ghost var end := if d == 0 && !c then "\n" else "";
      CloseElement(compactMode);
      LayEnd(cut, d, td, c);
      ElementText(cut, d, td, c, closing, p);
      Assemble(b, start, e.name, WriteAttrs(cut.attrs, p), content, closing, end);
    }

    /** `Accept` on a document, by a printer that has printed nothing yet: what is written is the laid-out
        document with its values cut.  The document says whether entities are processed. */
    method AcceptDocument(ns: seq<Xml>, entities: bool)
      requires AllElements(ns)
      requires buffer == "" && !elementJustOpened && firstElement && depth == 0 && textDepth == -1
      modifies this
      ensures buffer == WriteDocument(ns, compactMode, entities)
      ensures compactMode == old(compactMode) && processEntities == entities
    {
      hide Lay, WriteNode, WriteAll, LayDocument, CutAll;
      processEntities := entities;
      var j := 0;
      ghost var c, e := compactMode, processEntities;
      ghost var cut := CutAll(ns, e);
      assert cut[0..] == cut;
      while j < |ns|
        invariant j <= |ns|
        invariant buffer + WriteAll(LayDocument(cut[j..], j == 0, textDepth, c), e) == WriteDocument(ns, c, e)
        invariant !elementJustOpened && depth == 0 && processEntities == e && compactMode == c
        invariant firstElement == (c || j == 0)
      {
        assert ns[j] in ns;
        DocumentStep(buffer, cut, j, textDepth, c, e);
        AcceptElement(ns[j]);
        j := j + 1;
      }
      DocumentEnd(cut, textDepth, c, buffer, e);
    }
  }
}
