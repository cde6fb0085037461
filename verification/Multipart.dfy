/**
  The framing of multipart messages (ZeroMQ RFC 50): every part follows its size, one byte below 255,
  otherwise 0xFF and four bytes in network order.
*/
module Multipart {
  import opened Wrappers
  import Slices

  newtype byte = x: int | 0 <= x < 256

  const U32_MAX: nat := 0xFFFF_FFFF

  datatype Decoded =
    | Parts(parts: seq<seq<byte>>)
    | OverflowInSize
    | OverflowInPart

  // ----- sizes in network order -----

  /** `write_network_order`. */
  function NetworkOrder(n: nat): (b: seq<byte>)
    requires n <= U32_MAX
    ensures |b| == 4
  {
    [(n / 0x100_0000) as byte, (n / 0x1_0000 % 256) as byte, (n / 256 % 256) as byte, (n % 256) as byte]
  }

  /** `read_u32_network_order`. */
  function FromNetworkOrder(b: seq<byte>): (n: nat)
    requires |b| == 4
    ensures n <= U32_MAX
  {
    b[0] as nat * 0x100_0000 + b[1] as nat * 0x1_0000 + b[2] as nat * 256 + b[3] as nat
  }

  lemma ReadWritten(n: nat)
    requires n <= U32_MAX
    ensures FromNetworkOrder(NetworkOrder(n)) == n
  {
    var a := n / 256;
    var b := a / 256;
    assert n / 0x1_0000 == b;
    assert n / 0x100_0000 == b / 256;
    assert n == a * 256 + n % 256;
    assert a == b * 256 + a % 256;
  }

  lemma WriteRead(b: seq<byte>)
    requires |b| == 4
    ensures NetworkOrder(FromNetworkOrder(b)) == b
  {
    var n := FromNetworkOrder(b);
    assert n / 256 == b[0] as nat * 0x1_0000 + b[1] as nat * 256 + b[2] as nat;
    assert n / 0x1_0000 == b[0] as nat * 256 + b[1] as nat;
    assert n / 0x100_0000 == b[0] as nat;
  }

  /** The most significant byte comes first. */
  lemma MostSignificantFirst(n: nat, a: nat, b: nat, c: nat, d: nat)
    requires a < 256 && b < 256 && c < 256 && d < 256 && n == ((a * 256 + b) * 256 + c) * 256 + d
    ensures n <= U32_MAX && NetworkOrder(n) == [a as byte, b as byte, c as byte, d as byte]
  {
    WriteRead([a as byte, b as byte, c as byte, d as byte]);
  }

  // ----- the format -----

  /** The two ways to give a size.  The long one may be used for a small size too. */
  datatype Form = Short | Long

  predicate FormFits(form: Form, n: nat) {
    n <= if form == Short then 254 else U32_MAX
  }

  function Header(form: Form, n: nat): seq<byte>
    requires FormFits(form, n)
  {
    if form == Short then [n as byte] else [255] + NetworkOrder(n)
  }

  predicate FormsFit(forms: seq<Form>, parts: seq<seq<byte>>) {
    |forms| == |parts| && forall i :: 0 <= i < |parts| ==> FormFits(forms[i], |parts[i]|)
  }

  /** The messages that carry `parts`. */
  function Framed(forms: seq<Form>, parts: seq<seq<byte>>): seq<byte>
    requires FormsFit(forms, parts)
  {
    if parts == [] then []
    else Header(forms[0], |parts[0]|) + (parts[0] + Framed(forms[1..], parts[1..]))
  }

  // ----- the encoder -----

  predicate Encodable(parts: seq<seq<byte>>) {
    forall i :: 0 <= i < |parts| ==> |parts[i]| <= U32_MAX
  }

  function FormOf(part: seq<byte>): Form {
    if |part| < 255 then Short else Long
  }

  function FormsOf(parts: seq<seq<byte>>): (forms: seq<Form>)
    ensures |forms| == |parts| && forall i :: 0 <= i < |parts| ==> forms[i] == FormOf(parts[i])
  {
    if parts == [] then [] else [FormOf(parts[0])] + FormsOf(parts[1..])
  }

  function Encode(parts: seq<seq<byte>>): seq<byte>
    requires Encodable(parts)
  {
    Framed(FormsOf(parts), parts)
  }

  lemma EncodeStep(parts: seq<seq<byte>>)
    requires Encodable(parts) && parts != []
    ensures Encode(parts) == Header(FormOf(parts[0]), |parts[0]|) + (parts[0] + Encode(parts[1..]))
  {
  }

  // ----- the decoder -----

  function Decode(s: seq<byte>): Decoded
    decreases |s|
  {
    if s == [] then Parts([])
    else if s[0] == 255 then
      if |s| < 5 then OverflowInSize else DecodePart(s, 5, FromNetworkOrder(s[1..5]))
    else DecodePart(s, 1, s[0] as nat)
  }

  function DecodePart(s: seq<byte>, at: nat, n: nat): Decoded
    requires 0 < at <= |s|
    decreases |s|, 0
  {
    if |s| - at < n then OverflowInPart
    else
      var rest := Decode(s[at + n..]);
      if rest.Parts? then Parts([s[at..at + n]] + rest.parts) else rest
  }

  /** What follows the header is the part and the rest. */
  lemma DecodeStep(form: Form, part: seq<byte>, rest: seq<byte>)
    requires FormFits(form, |part|)
    ensures Decode(Header(form, |part|) + (part + rest)) ==
            if Decode(rest).Parts? then Parts([part] + Decode(rest).parts) else Decode(rest)
  {
    var s := Header(form, |part|) + (part + rest);
    var at := if form == Short then 1 else 5;
    if form == Long {
      ReadWritten(|part|);
      assert s[1..5] == NetworkOrder(|part|);
    }
    assert s[at..at + |part|] == part;
    assert s[at + |part|..] == rest;
  }

  /** Every way to frame the parts is decoded to them. */
  lemma {:induction false} DecodeInvertsFramed(forms: seq<Form>, parts: seq<seq<byte>>)
    requires FormsFit(forms, parts)
    ensures Decode(Framed(forms, parts)) == Parts(parts)
    decreases |parts|
  {
    hide Decode, Header;
    if parts == [] {
      DecodeNothing();
    } else {
      DecodeInvertsFramed(forms[1..], parts[1..]);
      DecodeStep(forms[0], parts[0], Framed(forms[1..], parts[1..]));
      assert parts == [parts[0]] + parts[1..];
    }
  }

  lemma DecodeNothing()
    ensures Decode([]) == Parts([])
  {
  }

  /** The first part of a message that is decoded. */
  lemma SplitMessage(s: seq<byte>) returns (form: Form, part: seq<byte>, rest: seq<byte>)
    requires s != [] && Decode(s).Parts?
    ensures FormFits(form, |part|) && s == Header(form, |part|) + (part + rest)
    ensures Decode(rest).Parts? && Decode(s).parts == [part] + Decode(rest).parts && |rest| < |s|
  {
    form := if s[0] == 255 then Long else Short;
    var at := if s[0] == 255 then 5 else 1;
    var n := if s[0] == 255 then FromNetworkOrder(s[1..5]) else s[0] as nat;
    part, rest := s[at..at + n], s[at + n..];
    if form == Long {
      WriteRead(s[1..5]);
    }
    assert Header(form, n) == s[..at];
    assert s == s[..at] + (part + rest);
  }

  /** What is decoded is framed, so that a message is rejected exactly when it frames no parts. */
  lemma {:induction false} DecodedIsFramed(s: seq<byte>) returns (forms: seq<Form>)
    requires Decode(s).Parts?
    ensures FormsFit(forms, Decode(s).parts) && Framed(forms, Decode(s).parts) == s
    decreases |s|
  {
    if s == [] {
      forms := [];
    } else {
      hide Decode, Header;
      var form, part, rest := SplitMessage(s);
      var others := DecodedIsFramed(rest);
      forms := [form] + others;
      var parts := Decode(s).parts;
      assert parts[1..] == Decode(rest).parts && forms[1..] == others;
    }
  }

  lemma RejectsExactly(s: seq<byte>)
    ensures Decode(s).Parts? <==> exists forms, parts :: FormsFit(forms, parts) && Framed(forms, parts) == s
  {
    if Decode(s).Parts? {
      var forms := DecodedIsFramed(s);
    }
    if forms, parts :| FormsFit(forms, parts) && Framed(forms, parts) == s {
      DecodeInvertsFramed(forms, parts);
    }
  }

  lemma RoundTrip(parts: seq<seq<byte>>)
    requires Encodable(parts)
    ensures Decode(Encode(parts)) == Parts(parts)
  {
    DecodeInvertsFramed(FormsOf(parts), parts);
  }

  /** What was decoded can be encoded again, to no more bytes, and to as many only if they are the
      same: the encoder's output is the one shortest message for its parts. */
  lemma ReencodingIsShortest(s: seq<byte>)
    requires Decode(s).Parts?
    ensures Encodable(Decode(s).parts)
    ensures |Encode(Decode(s).parts)| <= |s|
    ensures |Encode(Decode(s).parts)| == |s| <==> Encode(Decode(s).parts) == s
  {
    var forms := DecodedIsFramed(s);
    EncodeIsShortest(forms, Decode(s).parts);
  }

  lemma {:induction false} EncodeIsShortest(forms: seq<Form>, parts: seq<seq<byte>>)
    requires FormsFit(forms, parts)
    ensures Encodable(parts)
    ensures |Encode(parts)| <= |Framed(forms, parts)|
    ensures |Encode(parts)| == |Framed(forms, parts)| ==> Encode(parts) == Framed(forms, parts)
    decreases |parts|
  {
    assert Encodable(parts) by {
      forall i | 0 <= i < |parts|
        ensures |parts[i]| <= U32_MAX
      {
        assert FormFits(forms[i], |parts[i]|);
      }
    }
    if parts != [] {
      EncodeIsShortest(forms[1..], parts[1..]);
      EncodeStep(parts);
    }
  }

  // ----- the loops -----

  /** The size computed in the encoder's first pass. */
  function EncodedSize(parts: seq<seq<byte>>): nat {
    if parts == [] then 0
    else |parts[0]| + (if |parts[0]| < 255 then 1 else 5) + EncodedSize(parts[1..])
  }

  lemma {:induction false} SizeIsRight(parts: seq<seq<byte>>)
    requires Encodable(parts)
    ensures |Encode(parts)| == EncodedSize(parts)
    decreases |parts|
  {
    if parts != [] {
      EncodeStep(parts);
      SizeIsRight(parts[1..]);
    }
  }

  /** The first pass of `encode`; none is the thrown `range_error`. */
  method Measure(parts: seq<seq<byte>>) returns (r: Option<nat>)
    ensures r == if Encodable(parts) then Some(EncodedSize(parts)) else None
  {
    var size := 0;
    for i := 0 to |parts|
      invariant Encodable(parts[..i])
      invariant size + EncodedSize(parts[i..]) == EncodedSize(parts)
    {
      if |parts[i]| > U32_MAX {
        return None;
      }
      Slices.DropRest(parts, i, 1);
      var countSize := if |parts[i]| < 255 then 1 else 5;
      size := size + |parts[i]| + countSize;
    }
    assert parts[..|parts|] == parts;
    return Some(size);
  }

  /** `std::memcpy` to `encoded + at`. */
  method CopyTo(encoded: array<byte>, at: nat, bytes: seq<byte>) returns (next: nat)
    requires at + |bytes| <= encoded.Length
    modifies encoded
    ensures next == at + |bytes| && encoded[..next] == old(encoded[..at]) + bytes
  {
    forall k | 0 <= k < |bytes| {
      encoded[at + k] := bytes[k];
    }
    next := at + |bytes|;
  }

  /** Writes one part at `buf` and gives the position behind it. */
  method WritePart(encoded: array<byte>, buf: nat, part: seq<byte>) returns (next: nat)
    requires |part| <= U32_MAX && buf + |Header(FormOf(part), |part|)| + |part| <= encoded.Length
    modifies encoded
    ensures next <= encoded.Length
    ensures encoded[..next] == old(encoded[..buf]) + (Header(FormOf(part), |part|) + part)
  {
    hide NetworkOrder;
    ghost var before := encoded[..buf];
    if |part| < 255 {
      next := CopyTo(encoded, buf, [|part| as byte]);
    } else {
      next := CopyTo(encoded, buf, [255]);
      next := CopyTo(encoded, next, NetworkOrder(|part|));
      Slices.Assoc(before, [255], NetworkOrder(|part|));
    }
    Slices.Assoc(before, Header(FormOf(part), |part|), part);
    next := CopyTo(encoded, next, part);
  }

  /** `encode`.  The assertion is the source's. */
  method EncodeMessage(parts: seq<seq<byte>>) returns (r: Option<array<byte>>)
    ensures r.Some? <==> Encodable(parts)
    ensures r.Some? ==> fresh(r.value) && r.value[..] == Encode(parts)
  {
    hide Framed, EncodedSize, Header;
    var size := Measure(parts);
    if size == None {
      return None;
    }
    SizeIsRight(parts);
    var encoded := new byte[size.value];
    var buf: nat := 0;
    assert parts[0..] == parts;
    for i := 0 to |parts|
      invariant buf <= encoded.Length
      invariant encoded[..buf] + Encode(parts[i..]) == Encode(parts)
    {
      ghost var rest := Encode(parts[i + 1..]);
      ghost var header := Header(FormOf(parts[i]), |parts[i]|);
      Slices.DropRest(parts, i, 1);
      EncodeStep(parts[i..]);
      ghost var done := encoded[..buf];
      Slices.Assoc(header, parts[i], rest);
      Slices.Assoc(done, header + parts[i], rest);
      buf := WritePart(encoded, buf, parts[i]);
    }
    EncodeNothing();
    assert encoded[..buf] == Encode(parts);
    assert buf == size.value;
    return Some(encoded);
  }

  lemma EncodeNothing()
    ensures Encode([]) == []
  {
  }

  function Before(parts: seq<seq<byte>>, d: Decoded): Decoded {
    if d.Parts? then Parts(parts + d.parts) else d
  }

  /** What the size at position `i` says. */
  lemma DecodeSize(e: seq<byte>, i: nat)
    requires i < |e|
    ensures e[i] != 255 ==> Decode(e[i..]) == DecodePart(e[i..], 1, e[i] as nat)
    ensures e[i] == 255 ==>
              Decode(e[i..]) == if |e| - i < 5 then OverflowInSize
                                else DecodePart(e[i..], 5, FromNetworkOrder(e[i + 1..i + 5]))
  {
    hide DecodePart, FromNetworkOrder;
    if |e| - i >= 5 {
      assert e[i..][1..5] == e[i + 1..i + 5];
    }
  }

  /** The part of `n` bytes behind the size is taken, and the rest is decoded. */
  lemma DecodeOne(e: seq<byte>, i: nat, at: nat, n: nat, out: seq<seq<byte>>)
    requires i + at <= |e| && 0 < at
    ensures |e| - (i + at) < n ==> DecodePart(e[i..], at, n) == OverflowInPart
    ensures n <= |e| - (i + at) ==>
              Before(out, DecodePart(e[i..], at, n)) ==
              Before(out + [e[i + at..i + at + n]], Decode(e[i + at + n..]))
  {
    hide Decode;
    if n <= |e| - (i + at) {
      assert e[i..][at..at + n] == e[i + at..i + at + n];
      Slices.DropRest(e, i, at + n);
      var rest := Decode(e[i + at + n..]);
      if rest.Parts? {
        Slices.Assoc(out, [e[i + at..i + at + n]], rest.parts);
      }
    }
  }

  lemma NothingBefore(e: seq<byte>)
    ensures Decode(e) == Before([], Decode(e[0..]))
  {
    hide Decode;
    assert e[0..] == e;
  }

  lemma AllDecoded(e: seq<byte>, out: seq<seq<byte>>)
    ensures Before(out, Decode(e[|e|..])) == Parts(out)
  {
  }

  /** `decode`; the assertion is the source's. */
  method DecodeMessage(encoded: array<byte>) returns (r: Decoded)
    ensures r == Decode(encoded[..])
  {
    hide Decode, DecodePart, FromNetworkOrder;
    ghost var e := encoded[..];
    var source, limit := 0, encoded.Length;
    var out: seq<seq<byte>> := [];
    NothingBefore(e);
    while source < limit
      invariant source <= limit && Decode(e) == Before(out, Decode(e[source..]))
    {
      ghost var start := source;
      DecodeSize(e, start);
      var partSize := encoded[source] as nat;
      source := source + 1;
      if partSize == 255 {
        if limit - source < 4 {
          return OverflowInSize;
        }
        partSize := FromNetworkOrder(encoded[source..source + 4]);
        source := source + 4;
      }
      DecodeOne(e, start, source - start, partSize, out);
      if limit - source < partSize {
        return OverflowInPart;
      }
      out := out + [encoded[source..source + partSize]];
      source := source + partSize;
    }
    assert source == limit;
    AllDecoded(e, out);
    return Parts(out);
  }
}
