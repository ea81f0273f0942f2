/** Signing a mail and reading it, as the program does it. */
module PgpMail {
  import opened Common
  import opened Text
  import opened PgpMime
  import opened Searching
  import opened PgpSigned
  import opened PgpRoundTrip

  const TAG := "pgp-signed"

  // ---- what the sender writes is fit to be read ----

  lemma {:induction false} HexIsPlain(n: nat, w: nat)
    ensures forall c | c in Hex(n, w) :: '0' <= c <= '9' || 'a' <= c <= 'f'
    decreases w
  {
    if w > 0 {
      HexIsPlain(n / 16, w - 1);
    }
  }

  lemma BoundaryIsOwn(nanos: Nanos)
    ensures OwnBoundary(MakeBoundary(TAG, nanos))
  {
    hide Hex;
    HexIsPlain(nanos, 8);
    var b := MakeBoundary(TAG, nanos);
    assert b == "inbx" + ("-" + TAG + "-" + Hex(nanos, 8));
    assert b[4..] == "-" + TAG + "-" + Hex(nanos, 8);
  }

  predicate WholeLines(s: string) {
    s == "" || EndsLine(s)
  }

  lemma {:induction false} FieldsAreLines(name: string, values: seq<string>)
    ensures WholeLines(Fields(name, values))
  {
  }

  lemma HeaderEndsLine(h: OuterHeaders)
    ensures EndsLine(HeaderText(h))
  {
    hide Fields;
    FieldsAreLines("To", h.to);
    FieldsAreLines("Cc", h.cc);
    var top := HeaderText(h.(messageId := None, inReplyTo := None, references := [], autocrypt := None));
    assert EndsLine(top);
  }

  method SignPgpMime<E>(sign: string -> Result<string, E>, innerRfc5322: string, h: OuterHeaders, nanos: Nanos)
    returns (r: Result<string, E>)
    ensures var inner, head, boundary := Normalized(innerRfc5322), HeaderText(h), MakeBoundary(TAG, nanos);
      match sign(inner)
      case Err(e) => r == Err(e)
      case Ok(signature) =>
        && r == Ok(Mail(head, boundary, inner, signature).Text())
        && (PlainHead(head, boundary) ==>
          (ExtractParts(r.value) == Parts(inner, TrimEnd(signature, Unicode)) <==>
          Clean(inner, "--" + boundary) && Clean(signature, "--" + boundary + "--")))
  {
    hide MakeBoundary, Normalized, HeaderText, ExtractParts, TrimEnd, PlainHead, Clean, Opening, Closing, Mail.Text;
    var innerCrlf := NormalizeCrlf(innerRfc5322);
    var signed := sign(innerCrlf);
    if signed.Err? {
      return Err(signed.error);
    }
    var boundary := MakeBoundary(TAG, nanos);
    var out := WriteOuterHeaders(h);
    out := out + Opening(boundary);
    out := out + innerCrlf;
    out := out + Closing(boundary, signed.value);
    ghost var m := Mail(HeaderText(h), boundary, innerCrlf, signed.value);
    IsText(m);
    BoundaryIsOwn(nanos);
    HeaderEndsLine(h);
    if PlainHead(m.head, m.boundary) {
      ReadsBackIff(m);
    }
    return Ok(out);
  }

  function Opening(boundary: string): string {
    ContentType() + BoundaryKey() + boundary + AfterBoundary() + "--" + boundary + CRLF
  }

  function Closing(boundary: string, signature: string): string {
    CRLF + "--" + boundary + CRLF + SignatureHead() + CRLF + signature + CRLF + "--" + boundary + "--" + CRLF
  }

  lemma IsText(m: Mail)
    ensures m.Text() == m.head + Opening(m.boundary) + m.inner + Closing(m.boundary, m.signature)
  {
    hide Opening, Closing, Mail.Body;
    var opening, closing := Opening(m.boundary), Closing(m.boundary, m.signature);
    OpeningIs(m);
    BodyIs(m);
    Associate(m.head, opening, m.inner + closing);
    Associate(m.head + opening, m.inner, closing);
  }

  lemma OpeningIs(m: Mail)
    ensures m.Text() == m.head + (Opening(m.boundary) + m.Body())
  {
    hide ContentType, BoundaryKey, AfterBoundary, Mail.Body;
    Sum(ContentType(), BoundaryKey(), m.boundary, AfterBoundary(), "--", m.boundary, CRLF, m.Body());
  }

  lemma Sum(a: string, b: string, c: string, d: string, e: string, f: string, g: string, h: string)
    ensures a + b + c + d + e + f + g + h == a + (b + (c + (d + ((e + f) + (g + h)))))
  {
  }

  lemma BodyIs(m: Mail)
    ensures m.Body() == m.inner + Closing(m.boundary, m.signature)
  {
    hide SignatureHead;
    var last := "--" + m.boundary + "--" + CRLF;
    Tail(CRLF, "--", m.boundary, CRLF, SignatureHead(), CRLF, m.signature, CRLF, last);
    Ends(CRLF + "--" + m.boundary + CRLF + SignatureHead() + CRLF + m.signature + CRLF, "--", m.boundary, "--", CRLF);
  }

  lemma Tail(a: string, b: string, c: string, d: string, e: string, f: string, g: string, h: string, i: string)
    ensures a + b + c + d + e + f + g + h + i == a + ((b + c) + (d + (e + (f + (g + (h + i))))))
  {
  }

  lemma Ends(a: string, b: string, c: string, d: string, e: string)
    ensures a + b + c + d + e == a + (b + c + d + e)
  {
  }

  method ExtractPgpMimeParts(raw: string) returns (r: Extracted)
    ensures r == ExtractParts(raw)
  {
    hide Find, Occurrences, LineEnd, SignedEnd, PartEnd, WithoutHeaders, TrimEnd;
    var boundary := BoundaryOf(raw);
    if boundary.None? {
      return Absent;
    }
    var sep := "--" + boundary.value;
    var endSep := sep + "--";
    var boundaries := CollectOccurrences(raw, sep);
    if |boundaries| < 2 {
      return Absent;
    }
    OccurrencesInside(raw, sep, 0);
    var firstSepEnd := LineEnd(raw, boundaries[0]);
    if firstSepEnd.None? {
      return Absent;
    }
    var signedEnd := SignedEnd(raw, boundaries[1]);
    if firstSepEnd.value > signedEnd {
      return Crashed;
    }
    var sigSepEnd := LineEnd(raw, boundaries[1]);
    if sigSepEnd.None? {
      return Absent;
    }
    var sigPart := raw[sigSepEnd.value..PartEnd(raw, endSep, sigSepEnd.value)];
    return Parts(raw[firstSepEnd.value..signedEnd], TrimEnd(WithoutHeaders(sigPart), Unicode));
  }

  method CollectOccurrences(s: string, sep: string) returns (boundaries: seq<nat>)
    requires sep != ""
    ensures boundaries == Occurrences(s, sep, 0)
  {
    hide Find;
    boundaries := [];
    var searchFrom := 0;
    var pos := Find(s, sep, searchFrom);
    while pos.Some?
      invariant searchFrom <= |s| && pos == Find(s, sep, searchFrom)
      invariant boundaries + Occurrences(s, sep, searchFrom) == Occurrences(s, sep, 0)
      decreases |s| - searchFrom
    {
      Associate(boundaries, [pos.value], Occurrences(s, sep, pos.value + |sep|));
      boundaries := boundaries + [pos.value];
      searchFrom := pos.value + |sep|;
      pos := Find(s, sep, searchFrom);
    }
  }
}
