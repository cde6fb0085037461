/**
  Parsing what the compact printer wrote.
*/
module XmlRoundTrip {
  import opened Wrappers
  import opened Slices
  import opened XmlText
  import opened XmlTree
  import opened XmlParser

  // ----- the scanners on printed text -----

  lemma {:induction false} SkipBlank(s: string, i: nat, w: string)
    requires Here(s, i, w) && Blank(w) && !IsWhiteSpace(At(s, i + |w|))
    ensures SkipWhiteSpace(s, i) == i + |w|
    decreases |w|
  {
    if w != "" {
      assert w == [w[0]] + w[1..];
      HereHead(s, i, w[0], w[1..]);
      SkipBlank(s, i + 1, w[1..]);
    }
  }

  lemma {:induction false} TextFound(s: string, i: nat, w: string, tag: char)
    requires Here(s, i, w) && tag !in w && NUL !in w && At(s, i + |w|) == tag && tag != NUL
    ensures ParseText(s, i, tag) == Some(i + |w|)
    decreases |w|
  {
    if w != "" {
      assert w == [w[0]] + w[1..];
      HereHead(s, i, w[0], w[1..]);
      TextFound(s, i + 1, w[1..], tag);
    }
  }

  lemma {:induction false} NameEndFound(s: string, i: nat, w: string)
    requires Here(s, i, w) && (forall c :: c in w ==> IsNameChar(c)) && !IsNameChar(At(s, i + |w|))
    ensures NameEnd(s, i) == i + |w|
    decreases |w|
  {
    if w != "" {
      assert w == [w[0]] + w[1..];
      HereHead(s, i, w[0], w[1..]);
      NameEndFound(s, i + 1, w[1..]);
    }
  }

  lemma NameFound(s: string, i: nat, name: string)
    requires Here(s, i, name) && LegalName(name) && !IsNameChar(At(s, i + |name|))
    ensures ParseName(s, i) == Some(i + |name|) && s[i] == name[0]
  {
    assert name == [name[0]] + name[1..];
    HereHead(s, i, name[0], name[1..]);
    NameEndFound(s, i + 1, name[1..]);
  }

  lemma NameStartIsPlain(c: char)
    requires IsNameStartChar(c)
    ensures !IsWhiteSpace(c) && c != NUL && c != '/' && c != '>' && c != '?' && c != '!'
  {
  }

  // ----- escaped text -----

  /** The characters that end text and attribute values do not occur in escaped text, and neither
      does NUL. */
  lemma EscapeCharAvoids(d: char, restricted: bool, c: char)
    requires d != NUL && (c == NUL || c == '<' || (c == '"' && !restricted))
    ensures c !in EscapeChar(d, restricted)
  {
  }

  lemma {:induction false} EscapeAvoids(v: string, restricted: bool, c: char)
    requires NUL !in v && (c == NUL || c == '<' || (c == '"' && !restricted))
    ensures c !in Escape(v, restricted)
    decreases |v|
  {
    hide EscapeChar;
    if v != "" {
      EscapeCharAvoids(v[0], restricted, c);
      EscapeAvoids(v[1..], restricted, c);
    }
  }

  lemma {:induction false} EscapeBlank(v: string)
    requires Blank(v)
    ensures Escape(v, true) == v
    decreases |v|
  {
    if v != "" {
      assert v[0] in v;
      EscapeBlank(v[1..]);
      assert EscapeChar(v[0], true) == [v[0]];
      assert v == [v[0]] + v[1..];
    }
  }

  /** Text that is not blank is still not blank after escaping, and starts no markup. */
  lemma {:induction false} SkipEscaped(s: string, i: nat, v: string)
    requires Here(s, i, Escape(v, true)) && !Blank(v) && NUL !in v
    ensures var j := SkipWhiteSpace(s, i);
            i <= j < i + |Escape(v, true)| && s[j] != '<' && s[j] != NUL
    decreases |v|
  {
    var w := EscapeChar(v[0], true);
    HereSplit(s, i, w, Escape(v[1..], true));
    if IsWhiteSpace(v[0]) {
      assert w == [v[0]];
      assert s[i] == v[0];
      assert v == [v[0]] + v[1..];
      SkipEscaped(s, i + 1, v[1..]);
    } else {
      assert w[0] == if NeedsEscape(v[0], true) then '&' else v[0];
      assert s[i] == w[0];
    }
  }

  // ----- attributes -----

  lemma AttributeFound(s: string, i: nat, a: Attr)
    requires LegalName(a.name) && LegalValue(a.value)
    requires Here(s, i, a.name + (['=', '"'] + (Escape(a.value, false) + ['"'])))
    ensures ParseAttribute(s, i) == AttrParsed(i + |a.name| + |Escape(a.value, false)| + 3, a)
  {
    hide Escape, Decode, IsNameChar, IsNameStartChar, IsWhiteSpace, ParseText, ParseName, SkipWhiteSpace, Here;
    var w := Escape(a.value, false);
    var eq := i + |a.name|;
    AttributeHere(s, i, a.name, w);
    NothingToSkip(s, eq);
    NothingToSkip(s, eq + 1);
    EqualsAndQuoteArePlain();
    NameFound(s, i, a.name);
    EscapeAvoids(a.value, false, '"');
    EscapeAvoids(a.value, false, NUL);
    TextFound(s, eq + 2, w, '"');
    DecodeInvertsEscape(a.value, false);
  }

  lemma AttributeHere(s: string, i: nat, name: string, w: string)
    requires Here(s, i, name + (['=', '"'] + (w + ['"'])))
    ensures var eq := i + |name|;
            && Here(s, i, name) && Here(s, eq + 2, w) && eq + 2 + |w| < |s|
            && s[eq] == '=' && s[eq + 1] == '"' && s[eq + 2 + |w|] == '"'
            && s[eq + 2..eq + 2 + |w|] == w && s[i..i + |name|] == name
  {
    var eq := i + |name|;
    HereSplit(s, i, name, ['=', '"'] + (w + ['"']));
    assert ['=', '"'] + (w + ['"']) == ['='] + (['"'] + (w + ['"']));
    HereHead(s, eq, '=', ['"'] + (w + ['"']));
    HereHead(s, eq + 1, '"', w + ['"']);
    HereSplit(s, eq + 2, w, ['"']);
    HereHead(s, eq + 2 + |w|, '"', []);
  }

  lemma NothingToSkip(s: string, i: nat)
    requires i <= |s|
    ensures !IsWhiteSpace(At(s, i)) ==> SkipWhiteSpace(s, i) == i
  {
  }

  lemma EqualsAndQuoteArePlain()
    ensures !IsNameChar('=') && !IsWhiteSpace('=') && !IsWhiteSpace('"')
  {
  }

  lemma PrintAttrsHere(s: string, i: nat, attrs: seq<Attr>)
    requires attrs != [] && Here(s, i, PrintAttrs(attrs))
    ensures var a := attrs[0];
            && s[i] == ' '
            && Here(s, i + 1, a.name + (['=', '"'] + (Escape(a.value, false) + ['"'])))
            && Here(s, i + |PrintAttr(a)|, PrintAttrs(attrs[1..]))
            && |PrintAttr(a)| == |a.name| + |Escape(a.value, false)| + 4
            && |PrintAttrs(attrs)| == |PrintAttr(a)| + |PrintAttrs(attrs[1..])|
  {
    var a := attrs[0];
    HereSplit(s, i, PrintAttr(a), PrintAttrs(attrs[1..]));
    HereHead(s, i, ' ', a.name + (['=', '"'] + (Escape(a.value, false) + ['"'])));
  }

  /** What may follow the attributes: the end of the tag, with or without its slash. */
  predicate TagEnds(s: string, k: nat, closed: bool) {
    At(s, k) == (if closed then '/' else '>') && (closed ==> At(s, k + 1) == '>')
  }

  lemma TagEndFound(s: string, i: nat, read: seq<Attr>, closed: bool)
    requires i <= |s| && TagEnds(s, i, closed)
    ensures ParseAttributes(s, i, read) == AttrsParsed(i + if closed then 2 else 1, read, closed)
  {
  }

  lemma AttributeStep(s: string, i: nat, read: seq<Attr>, p: nat, a: Attr)
    requires i + 1 < p <= |s| && s[i] == ' ' && IsNameStartChar(s[i + 1])
    requires ParseAttribute(s, i + 1) == AttrParsed(p, a) && !HasName(read, a.name)
    ensures ParseAttributes(s, i, read) == ParseAttributes(s, p, read + [a])
  {
    hide ParseAttribute;
    assert SkipWhiteSpace(s, i + 1) == i + 1;
    assert SkipWhiteSpace(s, i) == i + 1;
  }

  lemma NewName(read: seq<Attr>, attrs: seq<Attr>)
    requires attrs != [] && LegalAttrs(read + attrs)
    ensures !HasName(read, attrs[0].name) && LegalName(attrs[0].name) && LegalValue(attrs[0].value)
    ensures LegalAttrs(read + [attrs[0]] + attrs[1..])
  {
    var all := read + attrs;
    assert read + [attrs[0]] + attrs[1..] == all;
    assert all[|read|] == attrs[0] && attrs[0] in all;
    assert forall j :: 0 <= j < |read| ==> all[j] == read[j];
  }

  lemma {:induction false} AttributesFound(s: string, i: nat, read: seq<Attr>, attrs: seq<Attr>, closed: bool)
    requires LegalAttrs(read + attrs) && Here(s, i, PrintAttrs(attrs))
    requires TagEnds(s, i + |PrintAttrs(attrs)|, closed)
    ensures ParseAttributes(s, i, read) ==
            AttrsParsed(i + |PrintAttrs(attrs)| + if closed then 2 else 1, read + attrs, closed)
    decreases |attrs|
  {
    hide Escape, Decode, PrintAttr, IsNameChar, ParseAttribute, ParseAttributes, LegalAttrs, HasName;
    if attrs == [] {
      assert read + attrs == read;
      TagEndFound(s, i, read, closed);
    } else {
      var a := attrs[0];
      PrintAttrsHere(s, i, attrs);
      NewName(read, attrs);
      AttributeFound(s, i + 1, a);
      NameHere(s, i + 1, a.name, ['=', '"'] + (Escape(a.value, false) + ['"']));
      AttributeStep(s, i, read, i + |PrintAttr(a)|, a);
      AttributesFound(s, i + |PrintAttr(a)|, read + [a], attrs[1..], closed);
      assert (read + [a]) + attrs[1..] == read + attrs;
    }
  }

  lemma NameHere(s: string, i: nat, name: string, rest: string)
    requires LegalName(name) && Here(s, i, name + rest)
    ensures s[i] == name[0] && IsNameStartChar(s[i])
  {
  }
}
