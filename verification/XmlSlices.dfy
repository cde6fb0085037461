/**
  What the parser makes of the document's buffer: trees whose names and values are slices of it, in
  the order of the text, and the buffer in which reads of names have put their terminators.
*/
module XmlSlices {
  import opened Wrappers
  import opened XmlText
  import opened XmlTree
  import opened XmlParser

  /** A string that begins at `start`; the byte at `end` is overwritten when it is first read. */
  datatype Slice = Slice(start: nat, end: nat)

  datatype RawAttr = RawAttr(name: Slice, value: Slice)

  datatype Raw =
    | RawElement(name: Slice, attrs: seq<RawAttr>, kids: seq<Raw>)
    | RawText(value: Slice)

  function Sub(s: string, x: Slice): string {
    if x.start <= x.end <= |s| then s[x.start..x.end] else ""
  }

  // ----- the tree that the slices stand for -----

  function AttrOf(s: string, a: RawAttr): Attr {
    Attr(Sub(s, a.name), Decode(Sub(s, a.value)))
  }

  function AttrsOf(s: string, attrs: seq<RawAttr>): (r: seq<Attr>)
    ensures |r| == |attrs| && forall j :: 0 <= j < |attrs| ==> r[j] == AttrOf(s, attrs[j])
  {
    seq(|attrs|, j requires 0 <= j < |attrs| => AttrOf(s, attrs[j]))
  }

  function NodeOf(s: string, n: Raw): (r: Xml)
    ensures r.Element? <==> n.RawElement?
    decreases n
  {
    match n
    case RawText(value) => Text(Decode(Sub(s, value)))
    case RawElement(name, attrs, kids) => Element(Sub(s, name), AttrsOf(s, attrs), NodesOf(s, kids))
  }

  function NodesOf(s: string, ns: seq<Raw>): (r: seq<Xml>)
    ensures |r| == |ns|
    decreases ns
  {
    if ns == [] then [] else [NodeOf(s, ns[0])] + NodesOf(s, ns[1..])
  }

  lemma {:induction false} NodesOfMore(s: string, ns: seq<Raw>, n: Raw)
    ensures NodesOf(s, ns + [n]) == NodesOf(s, ns) + [NodeOf(s, n)]
    decreases |ns|
  {
    hide NodeOf;
    if ns == [] {
      assert ns + [n] == [n] && [n][1..] == [];
    } else {
      assert (ns + [n])[1..] == ns[1..] + [n];
      NodesOfMore(s, ns[1..], n);
    }
  }

  // ----- its slices in the order of the text -----

  function AttrSlices(attrs: seq<RawAttr>): seq<Slice> {
    if attrs == [] then [] else [attrs[0].name, attrs[0].value] + AttrSlices(attrs[1..])
  }

  function NodeSlices(n: Raw): seq<Slice>
    decreases n
  {
    match n
    case RawText(value) => [value]
    case RawElement(name, attrs, kids) => [name] + (AttrSlices(attrs) + SlicesOf(kids))
  }

  function SlicesOf(ns: seq<Raw>): seq<Slice>
    decreases ns
  {
    if ns == [] then [] else NodeSlices(ns[0]) + SlicesOf(ns[1..])
  }

  lemma {:induction false} AttrSlicesMore(attrs: seq<RawAttr>, a: RawAttr)
    ensures AttrSlices(attrs + [a]) == AttrSlices(attrs) + [a.name, a.value]
    decreases |attrs|
  {
    if attrs == [] {
      assert attrs + [a] == [a] && [a][1..] == [];
    } else {
      assert (attrs + [a])[1..] == attrs[1..] + [a];
      AttrSlicesMore(attrs[1..], a);
    }
  }

  lemma {:induction false} SlicesOfMore(ns: seq<Raw>, n: Raw)
    ensures SlicesOf(ns + [n]) == SlicesOf(ns) + NodeSlices(n)
    decreases |ns|
  {
    hide NodeSlices;
    if ns == [] {
      assert ns + [n] == [n] && [n][1..] == [];
    } else {
      assert (ns + [n])[1..] == ns[1..] + [n];
      SlicesOfMore(ns[1..], n);
    }
  }

  /** Slices between `lo` and `hi`, each with its terminator before the next one begins. */
  predicate Ordered(xs: seq<Slice>, lo: nat, hi: nat) {
    && (forall j :: 0 <= j < |xs| ==> lo <= xs[j].start <= xs[j].end < hi)
    && (forall j, k :: 0 <= j < k < |xs| ==> xs[j].end < xs[k].start)
  }

  lemma OrderedBoth(xs: seq<Slice>, ys: seq<Slice>, lo: nat, mid: nat, hi: nat)
    requires Ordered(xs, lo, mid) && Ordered(ys, mid, hi) && lo <= mid <= hi
    ensures Ordered(xs + ys, lo, hi)
  {
  }

  lemma OrderedWider(xs: seq<Slice>, lo: nat, hi: nat, lo': nat, hi': nat)
    requires Ordered(xs, lo, hi) && lo' <= lo && hi <= hi'
    ensures Ordered(xs, lo', hi')
  {
  }

  lemma OrderedOne(x: Slice, lo: nat, hi: nat)
    requires lo <= x.start <= x.end < hi
    ensures Ordered([x], lo, hi)
  {
  }

  // ----- the buffer -----

  /** The buffer holds the text, but for terminators at the marks. */
  ghost predicate Marked(buf: array<char>, s: string, marks: set<nat>)
    reads buf
  {
    buf.Length == |s| + 1 && forall k :: 0 <= k <= |s| ==> buf[k] == if k in marks then NUL else At(s, k)
  }

  /** No mark lies inside a slice. */
  predicate Unmarked(xs: seq<Slice>, marks: set<nat>) {
    forall x, k :: x in xs && k in marks ==> !(x.start <= k < x.end)
  }

  ghost predicate Below(marks: set<nat>, p: nat) {
    forall k :: k in marks ==> k < p
  }

  /** Marks have been added from `lo` to before `hi` only. */
  ghost predicate Added(marks: set<nat>, marks': set<nat>, lo: nat, hi: nat) {
    marks <= marks' && forall k :: k in marks' && k !in marks ==> lo <= k < hi
  }

  lemma AddedWider(a: set<nat>, b: set<nat>, lo: nat, hi: nat, lo': nat, hi': nat)
    requires Added(a, b, lo, hi) && lo' <= lo && hi <= hi'
    ensures Added(a, b, lo', hi')
  {
  }

  /** Slices that end at `p` or before it stay unmarked by marks from there on. */
  lemma UnmarkedLater(xs: seq<Slice>, lo: nat, p: nat, hi: nat, marks: set<nat>, marks': set<nat>)
    requires Ordered(xs, lo, p + 1) && Unmarked(xs, marks) && Added(marks, marks', p, hi)
    ensures Unmarked(xs, marks')
  {
  }

  lemma UnmarkedBoth(xs: seq<Slice>, ys: seq<Slice>, marks: set<nat>)
    requires Unmarked(xs, marks) && Unmarked(ys, marks)
    ensures Unmarked(xs + ys, marks)
  {
  }

  /** New slices lie behind all marks. */
  lemma UnmarkedAhead(xs: seq<Slice>, lo: nat, hi: nat, marks: set<nat>)
    requires Ordered(xs, lo, hi) && Below(marks, lo)
    ensures Unmarked(xs, marks)
  {
  }

  /** A terminator is inside none of the slices. */
  lemma EndsOutside(xs: seq<Slice>, lo: nat, hi: nat, marks: set<nat>, x: Slice)
    requires Ordered(xs, lo, hi) && Unmarked(xs, marks) && x in xs
    ensures Unmarked(xs, marks + {x.end}) && lo <= x.end < hi
  {
    var k :| 0 <= k < |xs| && xs[k] == x;
  }

  // ----- what has been made of a stretch of the text -----

  /** Between `i` and `p` the slices `xs` have been made, and terminators only have been written. */
  ghost predicate Made(buf: array<char>, s: string, xs: seq<Slice>, i: nat, p: nat, first: set<nat>, marks: set<nat>)
    reads buf
  {
    && i <= p <= |s| && Marked(buf, s, marks) && Below(first, i) && Added(first, marks, i, p)
    && Ordered(xs, i, p) && Unmarked(xs, marks)
  }

  /** The same, but that the last slice may end where the next tag begins. */
  ghost predicate MadeUpTo(buf: array<char>, s: string, xs: seq<Slice>, i: nat, p: nat, first: set<nat>,
                           marks: set<nat>)
    reads buf
  {
    && i <= p <= |s| && Marked(buf, s, marks) && Below(first, i) && Added(first, marks, i, p)
    && Ordered(xs, i, p + 1) && Unmarked(xs, marks) && (Ordered(xs, i, p) || At(s, p) == '<')
  }

  lemma MadeBoth(buf: array<char>, s: string, xs: seq<Slice>, ys: seq<Slice>, i: nat, p: nat, q: nat, r: nat,
                 first: set<nat>, mid: set<nat>, marks: set<nat>)
    requires Ordered(xs, i, p) && Unmarked(xs, mid) && Below(first, i) && Added(first, mid, i, p)
    requires i <= p <= q && Made(buf, s, ys, q, r, mid, marks)
    ensures Made(buf, s, xs + ys, i, r, first, marks)
  {
    hide Marked;
    OrderedWider(xs, i, p, i, q);
    OrderedBoth(xs, ys, i, q, r);
    UnmarkedLater(xs, i, q, r, mid, marks);
    UnmarkedBoth(xs, ys, marks);
  }

  lemma MadeAhead(buf: array<char>, s: string, xs: seq<Slice>, i: nat, p: nat, first: set<nat>, marks: set<nat>)
    requires MadeUpTo(buf, s, xs, i, p, first, marks)
    ensures Below(marks, p) && Marked(buf, s, marks) && Added(first, marks, i, |s| + 1)
  {
    hide Marked, Ordered, Unmarked;
  }

  lemma MadeIsUpTo(buf: array<char>, s: string, xs: seq<Slice>, i: nat, p: nat, first: set<nat>, marks: set<nat>)
    requires Made(buf, s, xs, i, p, first, marks)
    ensures MadeUpTo(buf, s, xs, i, p, first, marks)
  {
    hide Marked, Unmarked;
  }

  lemma MadeNothing(buf: array<char>, s: string, i: nat, marks: set<nat>)
    requires i <= |s| && Marked(buf, s, marks) && Below(marks, i)
    ensures MadeUpTo(buf, s, [], i, i, marks, marks)
  {
    hide Marked;
  }

  /** One of the slices is read. */
  lemma MadeRead(buf: array<char>, s: string, xs: seq<Slice>, i: nat, p: nat, first: set<nat>, marks: set<nat>,
                 x: Slice)
    requires i <= p <= |s| && Below(first, i) && Added(first, marks, i, p) && Ordered(xs, i, p) && Unmarked(xs, marks)
    requires x in xs && Marked(buf, s, marks + {x.end})
    ensures Made(buf, s, xs, i, p, first, marks + {x.end})
  {
    hide Marked;
    EndsOutside(xs, i, p, marks, x);
  }

  /** The stretch begins earlier, behind all marks. */
  lemma MadeFrom(buf: array<char>, s: string, xs: seq<Slice>, i: nat, j: nat, p: nat, first: set<nat>, marks: set<nat>)
    requires Made(buf, s, xs, j, p, first, marks) && i <= j && Below(first, i)
    ensures Made(buf, s, xs, i, p, first, marks)
  {
    hide Marked, Unmarked;
    OrderedWider(xs, j, p, i, p);
  }
}
