/**
  What character references and named entities stand for, told without the decoder: numerals read from
  their most significant digit on, and codes read back from UTF-8.
*/
module XmlReferences {
  import opened Wrappers
  import opened XmlText
  import opened Slices

  // ----- UTF-8 -----

  predicate Continues(c: char) {
    0x80 <= c as int < 0xC0
  }

  /** The code that a UTF-8 sequence of one to four bytes stands for; longer forms than needed are none. */
  function FromUtf8(b: string): Option<nat> {
    if |b| == 1 && b[0] as int < 0x80 then Some(b[0] as int)
    else if |b| == 2 && 0xC0 <= b[0] as int < 0xE0 && Continues(b[1]) then
      AtLeast(0x80, (b[0] as int - 0xC0) * 0x40 + (b[1] as int - 0x80))
    else if |b| == 3 && 0xE0 <= b[0] as int < 0xF0 && Continues(b[1]) && Continues(b[2]) then
      AtLeast(0x800, ((b[0] as int - 0xE0) * 0x40 + (b[1] as int - 0x80)) * 0x40 + (b[2] as int - 0x80))
    else if |b| == 4 && 0xF0 <= b[0] as int < 0xF8 && Continues(b[1]) && Continues(b[2]) && Continues(b[3]) then
      AtLeast(0x10000,
              (((b[0] as int - 0xF0) * 0x40 + (b[1] as int - 0x80)) * 0x40 + (b[2] as int - 0x80)) * 0x40 +
              (b[3] as int - 0x80))
    else None
  }

  function AtLeast(least: nat, n: nat): Option<nat> {
    if n < least then None else Some(n)
  }

  /** The bytes of a code are those, and only those, that stand for it. */
  lemma Utf8Exactly(n: nat, b: string)
    ensures FromUtf8(b) == Some(n) <==> n < 0x200000 && b == Utf8(n)
  {
    if n < 0x200000 {
      Utf8ReadsBack(n);
    }
    if FromUtf8(b) == Some(n) {
      Utf8Unique(b, n);
    }
  }

  lemma Utf8ReadsBack(n: nat)
    requires n < 0x200000
    ensures FromUtf8(Utf8(n)) == Some(n)
  {
    var a := n / 0x40;
    var c := a / 0x40;
    assert n / 0x1000 == c;
    assert n / 0x40000 == c / 0x40;
  }

  lemma Split64(h: nat, l: nat)
    requires l < 0x40
    ensures (h * 0x40 + l) / 0x40 == h && (h * 0x40 + l) % 0x40 == l
  {
  }

  lemma Div64Twice(n: nat)
    ensures n / 0x1000 == n / 0x40 / 0x40 && n / 0x40000 == n / 0x40 / 0x40 / 0x40
  {
  }

  lemma Unique2(b: string, n: nat)
    requires |b| == 2 && FromUtf8(b) == Some(n)
    ensures n < 0x200000 && b == Utf8(n)
  {
    Split64(b[0] as int - 0xC0, b[1] as int - 0x80);
  }

  lemma Unique3(b: string, n: nat)
    requires |b| == 3 && FromUtf8(b) == Some(n)
    ensures n < 0x200000 && b == Utf8(n)
  {
    Div64Twice(n);
    Split64(b[0] as int - 0xE0, b[1] as int - 0x80);
    Split64((b[0] as int - 0xE0) * 0x40 + (b[1] as int - 0x80), b[2] as int - 0x80);
  }

  lemma Unique4(b: string, n: nat)
    requires |b| == 4 && FromUtf8(b) == Some(n)
    ensures n < 0x200000 && b == Utf8(n)
  {
    Div64Twice(n);
    var h := (b[0] as int - 0xF0) * 0x40 + (b[1] as int - 0x80);
    Split64(b[0] as int - 0xF0, b[1] as int - 0x80);
    Split64(h, b[2] as int - 0x80);
    Split64(h * 0x40 + (b[2] as int - 0x80), b[3] as int - 0x80);
  }

  lemma Utf8Unique(b: string, n: nat)
    requires FromUtf8(b) == Some(n)
    ensures n < 0x200000 && b == Utf8(n)
  {
    if |b| == 2 {
      hide *;
      Unique2(b, n);
    } else if |b| == 3 {
      hide *;
      Unique3(b, n);
    } else if |b| == 4 {
      hide *;
      Unique4(b, n);
    }
  }

  // ----- numerals -----

  /** `c` is the digit for `d`. */
  predicate IsDigit(c: char, hex: bool, d: nat) {
    d < (if hex then 16 else 10) && (c == "0123456789abcdef"[d] || c == "0123456789ABCDEF"[d])
  }

  /** The numeral stands for `n`; no digits at all stand for 0. */
  predicate Denotes(numeral: string, hex: bool, n: nat)
    decreases |numeral|
  {
    var base := if hex then 16 else 10;
    if numeral == "" then n == 0
    else IsDigit(numeral[|numeral| - 1], hex, n % base) && Denotes(numeral[..|numeral| - 1], hex, n / base)
  }

  lemma DigitIs(c: char, hex: bool, d: nat)
    ensures IsDigit(c, hex, d) <==> (if hex then HexDigit(c) else DecDigit(c)) == Some(d)
  {
  }

  function Base(hex: bool): nat {
    if hex then 16 else 10
  }

  function Marker(hex: bool): char {
    if hex then 'x' else '#'
  }

  lemma Wraps(a: nat, k: nat)
    ensures (k * TWO32 + a) % TWO32 == a % TWO32
  {
  }

  /** Wrapping the scale before it is raised does not matter. */
  lemma ScaleRaised(scale: nat, base: nat)
    ensures scale % TWO32 * base % TWO32 == scale * base % TWO32
  {
    var q, r := scale / TWO32, scale % TWO32;
    calc {
      scale * base;
      (q * TWO32 + r) * base;
      q * TWO32 * base + r * base;
      q * base * TWO32 + r * base;
    }
    Wraps(r * base, q * base);
  }

  lemma DigitAndRest(scale: nat, base: nat, h: nat, d: nat)
    ensures scale * base * h + scale * d == scale * (base * h + d)
  {
    calc {
      scale * (base * h + d);
      scale * (base * h) + scale * d;
      scale * base * h + scale * d;
    }
  }

  lemma Small(n: nat, m: nat)
    requires n < m
    ensures n % m == n
  {
  }

  /** One digit at a scale that may have wrapped around: it has not, unless the digit is 0. */
  lemma DigitAdded(scale: nat, d: nat, ucs: nat)
    requires d == 0 || scale < TWO32
    requires scale * d + ucs < TWO32
    ensures (ucs + scale % TWO32 * d % TWO32) % TWO64 == ucs + scale * d
  {
    if d == 0 {
      Small(ucs, TWO64);
    } else {
      Small(scale, TWO32);
      Small(scale * d, TWO32);
      Small(ucs + scale * d, TWO64);
    }
  }

  /** The last digit `d` of `n` and the number `h` before it: `scale'` and `ucs'` are those of the next turn. */
  lemma DigitScaled(scale: nat, base: nat, n: nat, h: nat, d: nat, ucs: nat) returns (scale': nat, ucs': nat)
    requires base > 0 && n == base * h + d && scale * n + ucs < TWO32
    ensures (ucs + scale % TWO32 * d % TWO32) % TWO64 == ucs'
    ensures scale % TWO32 * base % TWO32 == scale' % TWO32
    ensures scale' * h + ucs' == scale * n + ucs
  {
    scale', ucs' := scale * base, ucs + scale * d;
    ScaleRaised(scale, base);
    DigitAndRest(scale, base, h, d);
    SmallScale(scale, n, d);
    DigitAdded(scale, d, ucs);
  }

  lemma SmallScale(scale: nat, n: nat, d: nat)
    requires d <= n
    ensures scale * d <= scale * n && (d > 0 ==> scale <= scale * n)
  {
  }

  lemma LastDigit(t: string, m: nat, q: nat, hex: bool, n: nat) returns (h: nat, d: nat)
    requires m < q < |t| && Denotes(t[m + 1..q + 1], hex, n)
    ensures n == Base(hex) * h + d && Denotes(t[m + 1..q], hex, h) && IsDigit(t[q], hex, d)
  {
    hide IsDigit;
    var numeral := t[m + 1..q + 1];
    assert numeral[|numeral| - 1] == t[q] && numeral[..|numeral| - 1] == t[m + 1..q];
    h, d := n / Base(hex), n % Base(hex);
  }

  lemma RefStep(t: string, lo: nat, q: nat, hex: bool, mult: nat, ucs: nat, d: nat)
    requires lo < q < |t| && t[lo] == Marker(hex) && IsDigit(t[q], hex, d)
    ensures RefValue(t, lo, q, hex, mult, ucs) ==
            RefValue(t, lo, q - 1, hex, mult * Base(hex) % TWO32, (ucs + mult * d % TWO32) % TWO64)
  {
    hide IsDigit;
    DigitIs(t[q], hex, d);
  }

  lemma NothingRead(t: string, lo: nat, m: nat, hex: bool, scale: nat, ucs: nat, n: nat)
    requires lo <= m < |t| && t[lo] == t[m] == Marker(hex) && Denotes(t[m + 1..m + 1], hex, n)
    ensures RefValue(t, lo, m, hex, scale % TWO32, ucs) == Some(scale * n + ucs)
  {
    assert n == 0;
  }

  /** Read backwards from `q` to the marker at `m`, the numeral gives its number times the scale. */
  lemma {:induction false} NumeralRead(t: string, lo: nat, m: nat, q: nat, hex: bool, scale: nat, ucs: nat, n: nat)
    requires lo <= m <= q < |t| && t[lo] == t[m] == Marker(hex) && Denotes(t[m + 1..q + 1], hex, n)
    requires scale * n + ucs < TWO32
    ensures RefValue(t, lo, q, hex, scale % TWO32, ucs) == Some(scale * n + ucs)
    decreases q
  {
    hide RefValue, Denotes, IsDigit, Base;
    if q == m {
      NothingRead(t, lo, m, hex, scale, ucs, n);
    } else {
      var h, d := LastDigit(t, m, q, hex, n);
      RefStep(t, lo, q, hex, scale % TWO32, ucs, d);
      BaseIsPositive(hex);
      var scale', ucs' := DigitScaled(scale, Base(hex), n, h, d, ucs);
      NumeralRead(t, lo, m, q - 1, hex, scale', ucs', h);
    }
  }

  lemma BaseIsPositive(hex: bool)
    ensures Base(hex) > 0
  {
  }

  // ----- references -----

  ghost predicate SomeDigit(c: char, hex: bool) {
    exists d :: IsDigit(c, hex, d)
  }

  ghost predicate AllDigits(w: string, hex: bool) {
    forall i :: 0 <= i < |w| ==> SomeDigit(w[i], hex)
  }

  lemma SomeDigitIs(c: char, hex: bool)
    ensures SomeDigit(c, hex) <==> (if hex then HexDigit(c) else DecDigit(c)).Some?
    ensures SomeDigit(c, hex) ==> c != ';' && c != Marker(hex) && c != 'x'
  {
    hide IsDigit;
    var digit := if hex then HexDigit(c) else DecDigit(c);
    if digit.Some? {
      DigitIs(c, hex, digit.value);
    }
    if SomeDigit(c, hex) {
      var d :| IsDigit(c, hex, d);
      DigitIs(c, hex, d);
    }
  }

  lemma {:induction false} DenotesDigits(numeral: string, hex: bool, n: nat)
    requires Denotes(numeral, hex, n)
    ensures AllDigits(numeral, hex)
  {
    hide IsDigit;
    if numeral != "" {
      var init := numeral[..|numeral| - 1];
      DenotesDigits(init, hex, n / Base(hex));
      assert SomeDigit(numeral[|numeral| - 1], hex);
      assert forall i :: 0 <= i < |init| ==> numeral[i] == init[i];
    }
  }

  /** The last marker up to `q`: the digits behind it are the numeral. */
  function LastMarker(t: string, lo: nat, q: nat, hex: bool): (m: nat)
    requires lo <= q < |t| && t[lo] == Marker(hex)
    ensures lo <= m <= q && t[m] == Marker(hex) && forall k :: m < k <= q ==> t[k] != Marker(hex)
  {
    if t[q] == Marker(hex) then q else LastMarker(t, lo, q - 1, hex)
  }

  lemma ReadIfOneMore(t: string, lo: nat, q: nat, hex: bool, mult: nat, ucs: nat) returns (mult': nat, ucs': nat)
    requires lo < q < |t| && t[lo] == Marker(hex) && t[q] != Marker(hex)
    ensures RefValue(t, lo, q, hex, mult, ucs).Some? <==>
              && (if hex then HexDigit(t[q]) else DecDigit(t[q])).Some?
              && RefValue(t, lo, q - 1, hex, mult', ucs').Some?
  {
    hide HexDigit, DecDigit;
    var digit := if hex then HexDigit(t[q]) else DecDigit(t[q]);
    mult', ucs' := mult * Base(hex) % TWO32, if digit.Some? then (ucs + mult * digit.value % TWO32) % TWO64 else 0;
  }

  lemma {:induction false} ReadIfDigits(t: string, lo: nat, q: nat, hex: bool, mult: nat, ucs: nat)
    requires lo <= q < |t| && t[lo] == Marker(hex)
    ensures RefValue(t, lo, q, hex, mult, ucs).Some? <==> AllDigits(t[LastMarker(t, lo, q, hex) + 1..q + 1], hex)
    decreases q
  {
    hide AllDigits, HexDigit, DecDigit;
    if t[q] == Marker(hex) {
      NoDigits(hex);
      assert t[q + 1..q + 1] == "";
    } else {
      hide RefValue;
      var m := LastMarker(t, lo, q - 1, hex);
      OneMoreDigit(t[m + 1..q], t[q], hex);
      assert t[m + 1..q + 1] == t[m + 1..q] + [t[q]];
      var mult', ucs' := ReadIfOneMore(t, lo, q, hex, mult, ucs);
      ReadIfDigits(t, lo, q - 1, hex, mult', ucs');
    }
  }

  lemma NoDigits(hex: bool)
    ensures AllDigits("", hex)
  {
  }

  lemma OneMoreDigit(w: string, c: char, hex: bool)
    ensures AllDigits(w + [c], hex) <==> AllDigits(w, hex) && (if hex then HexDigit(c) else DecDigit(c)).Some?
  {
    hide SomeDigit;
    SomeDigitIs(c, hex);
    if AllDigits(w + [c], hex) {
      assert (w + [c])[|w|] == c;
      assert forall i :: 0 <= i < |w| ==> (w + [c])[i] == w[i];
    }
  }

  lemma {:induction false} FirstSemicolon(t: string, i: nat, end: nat)
    requires i <= end < |t| && t[end] == ';' && forall k :: i <= k < end ==> t[k] != ';'
    ensures Semicolon(t, i) == Some(end)
    decreases end - i
  {
    if i < end {
      FirstSemicolon(t, i + 1, end);
    }
  }

  lemma {:induction false} NoSemicolon(t: string, i: nat)
    requires i <= |t| && forall k :: i <= k < |t| ==> t[k] != ';'
    ensures Semicolon(t, i) == None
    decreases |t| - i
  {
    if i < |t| {
      NoSemicolon(t, i + 1);
    }
  }

  /** The text begins like a reference, with its marker at position `lo`. */
  predicate Begins(t: string, lo: nat, hex: bool) {
    && |t| > 2 && lo + 1 < |t| && t[0] == '&' && t[1] == '#' && NUL !in t
    && hex == (t[2] == 'x') && lo == if hex then 2 else 1
  }

  /** The first semicolon behind the marker. */
  predicate Ends(t: string, lo: nat, end: nat) {
    lo < end < |t| && t[end] == ';' && forall k :: lo < k < end ==> t[k] != ';'
  }

  /** With a semicolon to end it, a reference is one exactly when there are only digits behind its last
      marker, and stands for the number they denote. */
  lemma ReferenceExactly(t: string, lo: nat, end: nat, hex: bool)
    requires Begins(t, lo, hex) && Ends(t, lo, end)
    ensures var numeral := t[LastMarker(t, lo, end - 1, hex) + 1..end];
            && (CharacterRef(t).Ref? <==> AllDigits(numeral, hex))
            && forall n: nat :: Denotes(numeral, hex, n) && n < TWO32 ==> CharacterRef(t) == Ref(end + 1, Utf8(n))
  {
    hide RefValue, CharacterRef, AllDigits, Denotes, LastMarker, Utf8;
    EndedReference(t, lo, end, hex);
    ReadIfDigits(t, lo, end - 1, hex, 1, 0);
    var m := LastMarker(t, lo, end - 1, hex);
    forall n: nat | Denotes(t[m + 1..end], hex, n) && n < TWO32
      ensures CharacterRef(t) == Ref(end + 1, Utf8(n))
    {
      NumeralRead(t, lo, m, end - 1, hex, 1, 0, n);
      assert RefValue(t, lo, end - 1, hex, 1, 0) == Some(n);
    }
  }

  lemma EndedReference(t: string, lo: nat, end: nat, hex: bool)
    requires Begins(t, lo, hex) && Ends(t, lo, end)
    ensures CharacterRef(t) ==
            match RefValue(t, lo, end - 1, hex, 1, 0)
            case None => NotARef
            case Some(ucs) => Ref(end + 1, Utf8(ucs))
  {
    hide RefValue, Semicolon, Utf8;
    assert t[2] in t && t[lo + 1] in t;
    FirstSemicolon(t, lo + 1, end);
  }

  lemma UnendedReference(t: string, lo: nat, hex: bool)
    requires Begins(t, lo, hex) && forall k :: lo < k < |t| ==> t[k] != ';'
    ensures CharacterRef(t) == NotARef
  {
    hide RefValue, Semicolon;
    assert t[2] in t && t[lo + 1] in t;
    NoSemicolon(t, lo + 1);
  }

  // ----- in the middle of a text -----

  function Reference(numeral: string, hex: bool): string {
    (if hex then "&#x" else "&#") + numeral + ";"
  }

  lemma ReferenceAt(t: string, numeral: string, hex: bool)
    requires Reference(numeral, hex) <= t && NUL !in t && AllDigits(numeral, hex)
    ensures var lo := if hex then 2 else 1;
            var end := lo + 1 + |numeral|;
            && |t| > end > 1 && t[0] == '&' && t[1] == '#' && t[lo] == Marker(hex) && t[end] == ';'
            && t[lo + 1..end] == numeral && (hex ==> t[2] == 'x')
  {
    hide AllDigits;
    var w := Reference(numeral, hex);
    var lo := if hex then 2 else 1;
    var end := lo + 1 + |numeral|;
    assert t[..|w|] == w;
    assert t[lo + 1..end] == t[..|w|][lo + 1..end] == w[lo + 1..end] == numeral;
    assert t[0] == w[0] && t[1] == w[1] && t[lo] == w[lo] && t[end] == w[end];
  }

  lemma ReferenceText(t: string, numeral: string, hex: bool)
    requires Reference(numeral, hex) <= t && NUL !in t && AllDigits(numeral, hex)
    ensures var lo := if hex then 2 else 1;
            var end := lo + 1 + |numeral|;
            && Begins(t, lo, hex) && Ends(t, lo, end)
            && LastMarker(t, lo, end - 1, hex) == lo && t[lo + 1..end] == numeral
  {
    hide SomeDigit, LastMarker, Reference;
    ReferenceAt(t, numeral, hex);
    var lo := if hex then 2 else 1;
    var end := lo + 1 + |numeral|;
    forall k | lo < k < end
      ensures t[k] != ';' && t[k] != Marker(hex) && t[k] != 'x'
    {
      assert t[k] == t[lo + 1..end][k - lo - 1];
      SomeDigitIs(t[k], hex);
    }
  }

  lemma DecodeReference(s: string, p: nat, q: nat, taken: nat, bytes: string)
    requires q <= p && p + 1 < |s| && s[p] == '&' && s[p + 1] == '#' && CharacterRef(s[p..]) == Ref(taken, bytes)
    ensures q + |bytes| <= p + taken <= |s|
    ensures DecodeFrom(s, p, q, true) == bytes + DecodeFrom(s, p + taken, q + |bytes|, true)
  {
    hide CharacterRef;
  }

  lemma ReferenceStarts(s: string, p: nat, numeral: string, hex: bool)
    requires Here(s, p, Reference(numeral, hex))
    ensures p + 1 < |s| && s[p] == '&' && s[p + 1] == '#' && Reference(numeral, hex) <= s[p..]
  {
    var w := Reference(numeral, hex);
    assert s[p..][..|w|] == s[p..p + |w|] == w;
    assert s[p] == w[0] && s[p + 1] == w[1];
  }

  /** A reference inside any text is decoded to the UTF-8 bytes of the number its digits denote, leading
      zeros and either case included. */
  lemma ReferenceDecoded(s: string, p: nat, q: nat, numeral: string, hex: bool, n: nat)
    requires q <= p && Here(s, p, Reference(numeral, hex)) && NUL !in s
    requires Denotes(numeral, hex, n) && n < TWO32
    ensures var len := |Reference(numeral, hex)|;
            q + |Utf8(n)| <= p + len <= |s| &&
            DecodeFrom(s, p, q, true) == Utf8(n) + DecodeFrom(s, p + len, q + |Utf8(n)|, true)
  {
    hide CharacterRef, Denotes, LastMarker, Utf8, AllDigits, DecodeFrom, Here;
    var len := |Reference(numeral, hex)|;
    ReferenceStarts(s, p, numeral, hex);
    DenotesDigits(numeral, hex, n);
    ReferenceText(s[p..], numeral, hex);
    ReferenceExactly(s[p..], if hex then 2 else 1, len - 1, hex);
    DecodeReference(s, p, q, len, Utf8(n));
  }

  /** Something else than a digit stands between the last marker and the first semicolon, or there is none. */
  ghost predicate Broken(t: string, lo: nat, hex: bool)
    requires Begins(t, lo, hex)
  {
    forall end: nat :: Ends(t, lo, end) ==> !AllDigits(t[LastMarker(t, lo, end - 1, hex) + 1..end], hex)
  }

  lemma EndsOnce(t: string, lo: nat, e1: nat, e2: nat)
    requires Ends(t, lo, e1) && Ends(t, lo, e2)
    ensures e1 == e2
  {
  }

  /** Exactly what is broken is no reference. */
  lemma BrokenIsNone(t: string, lo: nat, hex: bool)
    requires Begins(t, lo, hex)
    ensures CharacterRef(t) == NotARef <==> Broken(t, lo, hex)
  {
    hide CharacterRef, LastMarker, AllDigits, Ends;
    if end: nat :| Ends(t, lo, end) {
      ReferenceExactly(t, lo, end, hex);
      forall e: nat | Ends(t, lo, e)
        ensures e == end
      {
        EndsOnce(t, lo, e, end);
      }
    } else {
      NeverEnds(t, lo);
      UnendedReference(t, lo, hex);
    }
  }

  lemma NeverEnds(t: string, lo: nat)
    requires forall end: nat :: !Ends(t, lo, end)
    ensures forall k :: lo < k < |t| ==> t[k] != ';'
  {
    if some :| lo < some < |t| && t[some] == ';' {
      var end := EndOf(t, lo + 1, some);
      assert Ends(t, lo, end);
    }
  }

  /** What begins like a reference and is broken leaves its ampersand. */
  lemma AmpersandStays(s: string, p: nat, q: nat, lo: nat, hex: bool)
    requires q <= p <= |s| && Begins(s[p..], lo, hex) && Broken(s[p..], lo, hex)
    ensures DecodeFrom(s, p, q, true) == "&" + DecodeFrom(s, p + 1, q + 1, true)
  {
    hide CharacterRef, Broken;
    BrokenIsNone(s[p..], lo, hex);
    assert s[p..][0] == s[p] && s[p..][1] == s[p + 1];
  }

  lemma {:induction false} EndOf(t: string, i: nat, some: nat) returns (end: nat)
    requires i <= some < |t| && t[some] == ';'
    ensures i <= end <= some && t[end] == ';' && forall k :: i <= k < end ==> t[k] != ';'
    decreases some - i
  {
    if t[i] == ';' {
      end := i;
    } else {
      end := EndOf(t, i + 1, some);
    }
  }

  /** An ampersand and a hash at the very end lose the ampersand. */
  lemma BareReference(s: string, p: nat, q: nat)
    requires q <= p && p + 2 == |s| && s[p] == '&' && s[p + 1] == '#'
    ensures DecodeFrom(s, p, q, true) == DecodeFrom(s, p + 1, q, true)
  {
  }

  // ----- named entities -----

  /** The five entities of XML 1.0, section 4.6. */
  predicate Names(name: string, c: char) {
    || (name == "amp" && c == '&') || (name == "lt" && c == '<') || (name == "gt" && c == '>')
    || (name == "quot" && c == '"') || (name == "apos" && c == '\'')
  }

  lemma EntityNamed(t: string, name: string, c: char)
    requires Names(name, c) && "&" + name + ";" <= t
    ensures At(t, 1) != '#' && EntityAt(t, 0) == Some(Entity(name, c))
  {
    var w := "&" + name + ";";
    assert t[1..1 + |name|] == name by {
      assert t[..|w|][1..1 + |name|] == w[1..1 + |name|] == name;
    }
    assert t[|name| + 1] == w[|name| + 1] && t[1] == w[1] && t[2] == w[2];
  }

  lemma EntityDecoded(s: string, p: nat, q: nat, name: string, c: char)
    requires q <= p && Names(name, c) && Here(s, p, "&" + name + ";")
    ensures DecodeFrom(s, p, q, true) == [c] + DecodeFrom(s, p + |name| + 2, q + 1, true)
  {
    hide EntityAt;
    var t := s[p..];
    assert t[..|name| + 2] == s[p..p + |name| + 2];
    EntityNamed(t, name, c);
    DecodeEntity(s, p, q, Entity(name, c));
  }

  /** What the printer writes for a character: one of these, or the character itself. */
  lemma EscapedNamed(c: char, restricted: bool)
    ensures (c == '&' || c == '<' || c == '>' || (!restricted && (c == '"' || c == '\''))) ==>
              exists name :: Names(name, c) && EscapeChar(c, restricted) == "&" + name + ";"
    ensures !(c == '&' || c == '<' || c == '>' || (!restricted && (c == '"' || c == '\''))) ==>
              EscapeChar(c, restricted) == [c]
  {
    var name := if c == '&' then "amp" else if c == '<' then "lt" else if c == '>' then "gt"
                else if c == '"' then "quot" else "apos";
    if NeedsEscape(c, restricted) {
      assert Names(name, c) && EscapeChar(c, restricted) == "&" + name + ";";
    }
  }
}
