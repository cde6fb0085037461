/**
  Character classes, entity escaping and entity decoding of tinyxml2.  A `char` is one byte of
  the source; all codes above 127 behave alike there.
*/
module XmlText {
  import opened Wrappers
  import Slices

  const NUL := '\0'
  const LF := '\n'
  const CR := '\r'

  /** The byte at position `i`, with the terminating NUL at and beyond the end. */
  function At(s: string, i: nat): char {
    if i < |s| then s[i] else NUL
  }

  /** `isspace` in the C locale, for bytes below 128. */
  predicate IsWhiteSpace(c: char) {
    c == ' ' || '\t' <= c <= '\r'
  }

  predicate IsNameStartChar(c: char) {
    c as int >= 128 || 'a' <= c <= 'z' || 'A' <= c <= 'Z' || c == ':' || c == '_'
  }

  predicate IsNameChar(c: char) {
    IsNameStartChar(c) || '0' <= c <= '9' || c == '.' || c == '-'
  }

  // ----- escaping -----

  datatype Entity = Entity(pattern: string, value: char)

  /** The entity table, in the order it is searched. */
  const ENTITIES: seq<Entity> := [
    Entity("quot", '"'), Entity("amp", '&'), Entity("apos", '\''), Entity("lt", '<'), Entity("gt", '>')
  ]

  /** The flags the printer sets up: text escapes three characters, attribute values five. */
  predicate NeedsEscape(c: char, restricted: bool) {
    c == '&' || c == '<' || c == '>' || (!restricted && (c == '"' || c == '\''))
  }

  /** The first table entry for `c`, from entry `k` on. */
  function EntityFor(c: char, k: nat): Option<Entity>
    requires k <= |ENTITIES|
    decreases |ENTITIES| - k
  {
    if k == |ENTITIES| then None
    else if ENTITIES[k].value == c then Some(ENTITIES[k])
    else EntityFor(c, k + 1)
  }

  lemma EntityForEscaped(c: char, restricted: bool)
    requires NeedsEscape(c, restricted)
    ensures EntityFor(c, 0).Some? && EntityFor(c, 0).value.value == c
    ensures EntityFor(c, 0).value in ENTITIES
  {
  }

  function EscapeChar(c: char, restricted: bool): (r: string)
    ensures r != ""
  {
    if NeedsEscape(c, restricted) && EntityFor(c, 0).Some?
    then "&" + EntityFor(c, 0).value.pattern + ";"
    else [c]
  }

  function Escape(v: string, restricted: bool): string {
    if v == "" then "" else EscapeChar(v[0], restricted) + Escape(v[1..], restricted)
  }

  lemma {:induction false} EscapeConcat(v: string, w: string, restricted: bool)
    ensures Escape(v + w, restricted) == Escape(v, restricted) + Escape(w, restricted)
    decreases |v|
  {
    if v == "" {
      assert v + w == w;
    } else {
      assert (v + w)[0] == v[0] && (v + w)[1..] == v[1..] + w;
      EscapeConcat(v[1..], w, restricted);
    }
  }

  // ----- decoding -----

  const TWO32 := 0x1_0000_0000
  const TWO64 := 0x1_0000_0000_0000_0000

  /** `ConvertUTF32ToUTF8`: the bytes of a code, none at all from 0x200000 on. */
  function Utf8(ucs: nat): (r: string)
    ensures |r| <= 4 && (ucs == 0 ==> |r| == 1)
  {
    if ucs < 0x80 then [ucs as char]
    else if ucs < 0x800 then [(0xC0 + ucs / 0x40) as char, (0x80 + ucs % 0x40) as char]
    else if ucs < 0x10000 then
      [(0xE0 + ucs / 0x1000) as char, (0x80 + ucs / 0x40 % 0x40) as char, (0x80 + ucs % 0x40) as char]
    else if ucs < 0x200000 then
      [(0xF0 + ucs / 0x40000) as char, (0x80 + ucs / 0x1000 % 0x40) as char,
       (0x80 + ucs / 0x40 % 0x40) as char, (0x80 + ucs % 0x40) as char]
    else ""
  }

  function HexDigit(c: char): Option<nat> {
    if '0' <= c <= '9' then Some((c as int) - ('0' as int))
    else if 'a' <= c <= 'f' then Some((c as int) - ('a' as int) + 10)
    else if 'A' <= c <= 'F' then Some((c as int) - ('A' as int) + 10)
    else None
  }

  function DecDigit(c: char): Option<nat> {
    if '0' <= c <= '9' then Some((c as int) - ('0' as int)) else None
  }

  /** The number read backwards from `q` to the marker at or after `lo`, with the wrap-around of
      its 32-bit scale and 64-bit sum; `None` when a character on the way is no digit. */
  function RefValue(s: string, lo: nat, q: nat, hex: bool, mult: nat, ucs: nat): Option<nat>
    requires lo <= q < |s| && s[lo] == if hex then 'x' else '#'
    decreases q
  {
    if s[q] == (if hex then 'x' else '#') then Some(ucs)
    else
      var digit := if hex then HexDigit(s[q]) else DecDigit(s[q]);
      if digit.None? then None
      else RefValue(s, lo, q - 1, hex, mult * (if hex then 16 else 10) % TWO32,
                    (ucs + mult * digit.value % TWO32) % TWO64)
  }

  /** `strchr` for a semicolon. */
  function Semicolon(s: string, i: nat): (r: Option<nat>)
    requires i <= |s|
    ensures r.Some? ==> i <= r.value < |s| && s[r.value] == ';'
    decreases |s| - i
  {
    if i == |s| then None else if s[i] == ';' then Some(i) else Semicolon(s, i + 1)
  }

  datatype CharRef = NotARef | Ref(taken: nat, bytes: string)

  /** `GetCharacterRef` on text that starts with an ampersand and a hash: how many characters the
      reference takes and the bytes it stands for. */
  function CharacterRef(t: string): (r: CharRef)
    requires |t| >= 2 && t[0] == '&' && t[1] == '#'
    ensures r.Ref? ==> 0 < r.taken <= |t| && |r.bytes| <= r.taken
  {
    if At(t, 2) == NUL then Ref(1, "")
    else
      var hex := t[2] == 'x';
      var lo := if hex then 2 else 1;
      if At(t, lo + 1) == NUL then NotARef
      else
        var q := Semicolon(t, lo + 1);
        if q.None? then NotARef
        else
          var ucs := RefValue(t, lo, q.value - 1, hex, 1, 0);
          if ucs.None? then NotARef
          else
            RefLongEnough(t, lo, q.value, hex);
            Ref(q.value + 1, Utf8(ucs.value))
  }

  /** A reference without digits stands for code 0, which takes one byte. */
  lemma RefLongEnough(t: string, lo: nat, q: nat, hex: bool)
    requires lo < q < |t| && t[lo] == if hex then 'x' else '#'
    requires RefValue(t, lo, q - 1, hex, 1, 0).Some?
    ensures |Utf8(RefValue(t, lo, q - 1, hex, 1, 0).value)| <= q - lo + 2
  {
  }

  /** Does table entry `e` follow the ampersand that `t` starts with? */
  predicate EntityHere(t: string, e: Entity) {
    |e.pattern| + 1 < |t| && t[1..1 + |e.pattern|] == e.pattern && t[|e.pattern| + 1] == ';'
  }

  function EntityAt(t: string, k: nat): (r: Option<Entity>)
    requires k <= |ENTITIES|
    ensures r.Some? ==> EntityHere(t, r.value)
    decreases |ENTITIES| - k
  {
    if k == |ENTITIES| then None
    else if EntityHere(t, ENTITIES[k]) then Some(ENTITIES[k])
    else EntityAt(t, k + 1)
  }

  /** One turn of the loop in `GetStr` at read position `p` of `s`, when `q` bytes are written: how
      many characters it takes and the bytes it puts out.  An unknown entity skips a byte on both
      sides, so the byte that stood at the write position stays; since nothing at or after `q` has
      been written, that is byte `q` of `s`. */
  function DecodeStep(s: string, p: nat, q: nat, entities: bool): (r: (nat, string))
    requires q <= p < |s|
    ensures 0 < r.0 <= |s| - p && |r.1| <= r.0
  {
    if s[p] == CR then (if At(s, p + 1) == LF then 2 else 1, [LF])
    else if s[p] == LF then (if At(s, p + 1) == CR then 2 else 1, [LF])
    else if entities && s[p] == '&' then
      if At(s, p + 1) == '#' then
        match CharacterRef(s[p..])
        case NotARef => (1, [s[p]])
        case Ref(taken, bytes) => (taken, bytes)
      else
        match EntityAt(s[p..], 0)
        case Some(e) => (|e.pattern| + 2, [e.value])
        case None => (1, [s[q]])
    else (1, [s[p]])
  }

  /** What `GetStr` turns `s` into from there on.  The precondition of the recursive call says that
      the write position never passes the read position. */
  function DecodeFrom(s: string, p: nat, q: nat, entities: bool): (r: string)
    requires q <= p <= |s|
    ensures |r| <= |s| - q
    decreases |s| - p
  {
    if p == |s| then ""
    else
      var (taken, bytes) := DecodeStep(s, p, q, entities);
      bytes + DecodeFrom(s, p + taken, q + |bytes|, entities)
  }

  function Decode(s: string): string {
    DecodeFrom(s, 0, 0, true)
  }

  /** The decoder's run from `p` meets only the entities of the table: neither a character
      reference nor the branch for unknown entities. */
  predicate OnlyTableEntities(s: string, p: nat)
    requires p <= |s|
    decreases |s| - p
  {
    p < |s| ==>
      if s[p] == CR then OnlyTableEntities(s, if At(s, p + 1) == LF then p + 2 else p + 1)
      else if s[p] == LF then OnlyTableEntities(s, if At(s, p + 1) == CR then p + 2 else p + 1)
      else if s[p] == '&' then
        && At(s, p + 1) != '#'
        && EntityAt(s[p..], 0).Some?
        && OnlyTableEntities(s, p + |EntityAt(s[p..], 0).value.pattern| + 2)
      else OnlyTableEntities(s, p + 1)
  }

  // ----- decoding inverts escaping -----

  lemma EntityStarts(t: string, e: Entity)
    requires e in ENTITIES && EntityHere(t, e)
    ensures |e.pattern| >= 2 && t[1] == e.pattern[0] && t[2] == e.pattern[1]
  {
  }

  lemma TwoCharactersTell(e: Entity, f: Entity)
    requires e in ENTITIES && f in ENTITIES
    requires e.pattern[0] == f.pattern[0] && e.pattern[1] == f.pattern[1]
    ensures e == f
  {
  }

  /** A written entity is the only table entry that stands where it was written. */
  lemma EntityFound(t: string, c: char, restricted: bool)
    requires NeedsEscape(c, restricted) && EscapeChar(c, restricted) <= t
    ensures t[0] == '&' && At(t, 1) != '#'
    ensures EntityAt(t, 0) == EntityFor(c, 0)
    ensures EntityFor(c, 0).Some? && EntityFor(c, 0).value.value == c
    ensures |EscapeChar(c, restricted)| == |EntityFor(c, 0).value.pattern| + 2
  {
    hide EntityAt, EntityFor;
    EntityForEscaped(c, restricted);
    var e := EntityFor(c, 0).value;
    WrittenEntity(t, e);
    EntityStarts(t, e);
    forall f | f in ENTITIES && f != e ensures !EntityHere(t, f) {
      if EntityHere(t, f) {
        EntityStarts(t, f);
        TwoCharactersTell(e, f);
      }
    }
    var j :| 0 <= j < |ENTITIES| && ENTITIES[j] == e;
    EntityAtOnly(t, e, 0, j);
  }

  lemma WrittenEntity(t: string, e: Entity)
    requires e in ENTITIES && "&" + e.pattern + ";" <= t
    ensures t[0] == '&' && EntityHere(t, e) && t[1] != '#'
  {
  }

  lemma {:induction false} EntityAtOnly(t: string, e: Entity, k: nat, j: nat)
    requires k <= j < |ENTITIES| && ENTITIES[j] == e && EntityHere(t, e)
    requires forall f :: f in ENTITIES && f != e ==> !EntityHere(t, f)
    ensures EntityAt(t, k) == Some(e)
    decreases j - k
  {
    hide EntityHere;
    if ENTITIES[k] != e {
      assert ENTITIES[k] in ENTITIES;
      EntityAtOnly(t, e, k + 1, j);
    }
  }

  /** Escaped text starts with the escaped first character, then goes on with the rest. */
  lemma EscapeHead(s: string, p: nat, w: string, restricted: bool)
    requires p <= |s| && w != "" && s[p..] == Escape(w, restricted)
    ensures var n := |EscapeChar(w[0], restricted)|;
            && p + n <= |s|
            && EscapeChar(w[0], restricted) <= s[p..]
            && s[p + n..] == Escape(w[1..], restricted)
            && (!NeedsEscape(w[0], restricted) ==> n == 1 && s[p] == w[0])
  {
    var n := |EscapeChar(w[0], restricted)|;
    Slices.DropRest(s, p, n);
    assert s[p] == s[p..][0];
  }

  /** Apart from entities, escaped text starts like the text itself. */
  lemma EscapeStart(s: string, p: nat, w: string, restricted: bool)
    requires p <= |s| && s[p..] == Escape(w, restricted)
    ensures w == "" ==> At(s, p) == NUL
    ensures w != "" ==> At(s, p) == if NeedsEscape(w[0], restricted) then '&' else w[0]
  {
  }

  // One step of the decoder on each kind of text the printer writes.

  lemma DecodeEntity(s: string, p: nat, q: nat, e: Entity)
    requires q <= p < |s| && s[p] == '&' && At(s, p + 1) != '#' && EntityAt(s[p..], 0) == Some(e)
    ensures p + |e.pattern| + 2 <= |s|
    ensures DecodeFrom(s, p, q, true) == [e.value] + DecodeFrom(s, p + |e.pattern| + 2, q + 1, true)
    ensures OnlyTableEntities(s, p) == OnlyTableEntities(s, p + |e.pattern| + 2)
  {
    hide CharacterRef, EntityAt;
  }

  lemma DecodePlain(s: string, p: nat, q: nat)
    requires q <= p < |s| && s[p] != '&'
    requires s[p] == CR ==> At(s, p + 1) != LF
    requires s[p] == LF ==> At(s, p + 1) != CR
    ensures DecodeFrom(s, p, q, true) == [if s[p] == CR then LF else s[p]] + DecodeFrom(s, p + 1, q + 1, true)
    ensures OnlyTableEntities(s, p) == OnlyTableEntities(s, p + 1)
  {
    hide CharacterRef, EntityAt;
  }

  lemma DecodePair(s: string, p: nat, q: nat)
    requires q <= p < |s|
    requires (s[p] == CR && At(s, p + 1) == LF) || (s[p] == LF && At(s, p + 1) == CR)
    ensures p + 2 <= |s|
    ensures DecodeFrom(s, p, q, true) == [LF] + DecodeFrom(s, p + 2, q + 1, true)
    ensures OnlyTableEntities(s, p) == OnlyTableEntities(s, p + 2)
  {
  }

  lemma DecodeNothing(s: string, p: nat, q: nat, restricted: bool)
    requires q <= p <= |s| && s[p..] == Escape("", restricted)
    ensures DecodeFrom(s, p, q, true) == "" && OnlyTableEntities(s, p)
  {
  }

  /** Decoding gives back every text without carriage returns, meeting table entities only. */
  lemma {:induction false} DecodeEscapedFrom(s: string, p: nat, q: nat, w: string, restricted: bool)
    requires q <= p <= |s| && s[p..] == Escape(w, restricted) && CR !in w
    ensures DecodeFrom(s, p, q, true) == w && OnlyTableEntities(s, p)
    decreases |w|
  {
    hide CharacterRef, EntityAt, EntityFor, DecodeFrom, Escape, EscapeChar, OnlyTableEntities;
    if w == "" {
      DecodeNothing(s, p, q, restricted);
    } else {
      EscapeHead(s, p, w, restricted);
      var n := |EscapeChar(w[0], restricted)|;
      DecodeEscapedFrom(s, p + n, q + 1, w[1..], restricted);
      if NeedsEscape(w[0], restricted) {
        EntityFound(s[p..], w[0], restricted);
        DecodeEntity(s, p, q, EntityFor(w[0], 0).value);
      } else {
        EscapeStart(s, p + 1, w[1..], restricted);
        DecodePlain(s, p, q);
      }
    }
  }

  /** Decoding escaped text never yields a carriage return. */
  lemma {:induction false} DecodedHasNoCR(s: string, p: nat, q: nat, w: string, restricted: bool)
    requires q <= p <= |s| && s[p..] == Escape(w, restricted)
    ensures CR !in DecodeFrom(s, p, q, true) && OnlyTableEntities(s, p)
    decreases |w|
  {
    hide CharacterRef, EntityAt, EntityFor, DecodeFrom, Escape, EscapeChar;
    if w == "" {
      DecodeNothing(s, p, q, restricted);
    } else {
      EscapeHead(s, p, w, restricted);
      var n := |EscapeChar(w[0], restricted)|;
      DecodedHasNoCR(s, p + n, q + 1, w[1..], restricted);
      if NeedsEscape(w[0], restricted) {
        EntityFound(s[p..], w[0], restricted);
        DecodeEntity(s, p, q, EntityFor(w[0], 0).value);
      } else {
        EscapeStart(s, p + 1, w[1..], restricted);
        if |w| > 1 && ((w[0] == CR && w[1] == LF) || (w[0] == LF && w[1] == CR)) {
          EscapeHead(s, p + 1, w[1..], restricted);
          DecodedHasNoCR(s, p + 2, q + 1, w[1..][1..], restricted);
          DecodePair(s, p, q);
        } else {
          DecodePlain(s, p, q);
        }
      }
    }
  }

  /** Reading back what was written gives the string exactly when it holds no carriage return;
      either way only entities of the table are met. */
  lemma DecodeInvertsEscape(v: string, restricted: bool)
    ensures Decode(Escape(v, restricted)) == v <==> CR !in v
    ensures OnlyTableEntities(Escape(v, restricted), 0)
  {
    var s := Escape(v, restricted);
    assert s[0..] == s;
    if CR !in v {
      DecodeEscapedFrom(s, 0, 0, v, restricted);
    } else {
      DecodedHasNoCR(s, 0, 0, v, restricted);
    }
  }
}
