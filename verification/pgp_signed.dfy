/** The multipart/signed envelope, and the reader that takes it apart. */
module PgpSigned {
  import opened Common
  import opened Text
  import opened PgpMime
  import opened Searching

  function Multipart(): string { "Content-Type: multipart/signed; " }
  function Protocol(): string { "protocol=\"application/pgp-signature\"; " }
  function Micalg(): string { "micalg=\"pgp-sha256\"; " }
  function ContentType(): string { Multipart() + Protocol() + Micalg() }
  function BoundaryKey(): string { "boundary=\"" }
  function AfterBoundary(): string { "\"\r\nMIME-Version: 1.0\r\n\r\n" }
  function Type(): string { "Content-Type: " }
  function PgpType(): string { "application/pgp-signature" }
  function Name(): string { "; name=\"signature.asc\"" }
  function Description(): string { "Content-Description: " }
  function OpenPgp(): string { "OpenPGP digital signature" }
  function Disposition(): string { "Content-Disposition: attachment" }
  function Filename(): string { "; filename=\"signature.asc\"" }
  const BLANK := "\r\n\r\n"

  type Nanos = n: nat | n < 1_000_000_000

  datatype OuterHeaders = OuterHeaders(
    from: string,
    to: seq<string>,
    cc: seq<string>,
    subject: string,
    date: Option<string>,
    messageId: Option<string>,
    inReplyTo: Option<string>,
    references: seq<string>,
    autocrypt: Option<string>
  )

  // ---- writing ----

  function HexDigit(n: nat): char
    requires n < 16
  {
    if n < 10 then '0' + n as char else 'a' + (n - 10) as char
  }

  /** The last w hexadecimal digits of n. */
  function Hex(n: nat, w: nat): (r: string)
    ensures |r| == w
    decreases w
  {
    if w == 0 then "" else Hex(n / 16, w - 1) + [HexDigit(n % 16)]
  }

  function MakeBoundary(tag: string, nanos: Nanos): string {
    "inbx-" + tag + "-" + Hex(nanos, 8)
  }

  function Field(name: string, value: string): string {
    name + ": " + value + CRLF
  }

  function Fields(name: string, values: seq<string>): string {
    if values == [] then "" else Fields(name, values[..|values| - 1]) + Field(name, values[|values| - 1])
  }

  function OptionalField(name: string, value: Option<string>): string {
    if value.Some? then Field(name, value.value) else ""
  }

  function SpaceJoined(ids: seq<string>): string
    requires ids != []
  {
    if |ids| == 1 then ids[0] else ids[0] + " " + SpaceJoined(ids[1..])
  }

  function HeaderText(h: OuterHeaders): string {
    var date := if h.date.Some? then h.date.value else "Thu, 01 Jan 1970 00:00:00 +0000";
    Field("Date", date) + Field("From", h.from) + Fields("To", h.to) + Fields("Cc", h.cc)
    + Field("Subject", h.subject) + OptionalField("Message-ID", h.messageId)
    + OptionalField("In-Reply-To", h.inReplyTo)
    + (if h.references != [] then Field("References", SpaceJoined(h.references)) else "")
    + OptionalField("Autocrypt", h.autocrypt)
  }

  method WriteOuterHeaders(h: OuterHeaders) returns (buf: string)
    ensures buf == HeaderText(h)
  {
    hide Fields, Field, SpaceJoined;
    var date := if h.date.Some? then h.date.value else "Thu, 01 Jan 1970 00:00:00 +0000";
    buf := Field("Date", date);
    buf := buf + Field("From", h.from);
    buf := AppendFields(buf, "To", h.to);
    buf := AppendFields(buf, "Cc", h.cc);
    buf := buf + Field("Subject", h.subject);
    if h.messageId.Some? {
      buf := buf + Field("Message-ID", h.messageId.value);
    } else {
      assert buf + "" == buf;
    }
    if h.inReplyTo.Some? {
      buf := buf + Field("In-Reply-To", h.inReplyTo.value);
    } else {
      assert buf + "" == buf;
    }
    if h.references != [] {
      buf := buf + Field("References", SpaceJoined(h.references));
    } else {
      assert buf + "" == buf;
    }
    if h.autocrypt.Some? {
      buf := buf + Field("Autocrypt", h.autocrypt.value);
    } else {
      assert buf + "" == buf;
    }
  }

  method AppendFields(start: string, name: string, values: seq<string>) returns (buf: string)
    ensures buf == start + Fields(name, values)
  {
    hide Field;
    buf := start;
    for i := 0 to |values|
      invariant buf == start + Fields(name, values[..i])
    {
      assert values[..i + 1][..i] == values[..i];
      Associate(start, Fields(name, values[..i]), Field(name, values[i]));
      buf := buf + Field(name, values[i]);
    }
    assert values[..|values|] == values;
  }

  // ---- the envelope ----

  function SignatureHead(): string {
    Type() + PgpType() + Name() + CRLF + Description() + OpenPgp() + CRLF + Disposition() + Filename() + CRLF
  }

  datatype Mail = Mail(head: string, boundary: string, inner: string, signature: string) {
    function Sep(): string {
      "--" + boundary
    }

    function EndSep(): string {
      Sep() + "--"
    }

    function Text(): string {
      head + (ContentType() + (BoundaryKey() + (boundary + (AfterBoundary() + (Sep() + (CRLF + Body()))))))
    }

    function Body(): string {
      inner + (CRLF + (Sep() + (CRLF + (SignatureHead() + (CRLF + (signature + (CRLF + (EndSep() + CRLF))))))))
    }

    // where the pieces stand
    function NameAt(): nat {
      |head| + |ContentType()| + |BoundaryKey()|
    }

    function First(): nat {
      NameAt() + |boundary| + |AfterBoundary()|
    }

    function InnerAt(): nat {
      First() + |Sep()| + 2
    }

    function Second(): nat {
      InnerAt() + |inner| + 2
    }

    function SignatureHeadAt(): nat {
      Second() + |Sep()| + 2
    }

    function SignatureAt(): nat {
      SignatureHeadAt() + |SignatureHead()| + 2
    }

    function Last(): nat {
      SignatureAt() + |signature| + 2
    }
  }

  predicate HeadLaid(s: string, m: Mail) {
    && HasAt(s, m.head, 0) && HasAt(s, ContentType(), |m.head|)
    && HasAt(s, BoundaryKey(), |m.head| + |ContentType()|)
    && HasAt(s, m.boundary, m.NameAt()) && HasAt(s, AfterBoundary(), m.NameAt() + |m.boundary|)
    && HasAt(s, m.Sep(), m.First()) && HasAt(s, CRLF, m.First() + |m.Sep()|)
  }

  predicate BodyLaid(s: string, m: Mail) {
    && HasAt(s, m.inner, m.InnerAt()) && HasAt(s, CRLF, m.InnerAt() + |m.inner|)
    && HasAt(s, m.Sep(), m.Second()) && HasAt(s, CRLF, m.Second() + |m.Sep()|)
    && HasAt(s, SignatureHead(), m.SignatureHeadAt())
    && HasAt(s, CRLF, m.SignatureHeadAt() + |SignatureHead()|)
    && HasAt(s, m.signature, m.SignatureAt()) && HasAt(s, CRLF, m.SignatureAt() + |m.signature|)
    && HasAt(s, m.EndSep(), m.Last())
  }

  lemma HeadIsLaid(m: Mail)
    ensures var s := m.Text();
      HeadLaid(s, m) && m.InnerAt() <= |s| && s[m.InnerAt()..] == m.Body()
  {
    hide Mail.Body, HasAt, ContentType, BoundaryKey, AfterBoundary;
    var s := m.Text();
    SevenPieces(s, m.head, ContentType(), BoundaryKey(), m.boundary, AfterBoundary(), m.Sep(), CRLF, m.Body());
  }

  lemma SevenPieces(s: string, a: string, b: string, c: string, d: string, e: string, f: string, g: string,
      rest: string)
    requires s == a + (b + (c + (d + (e + (f + (g + rest))))))
    ensures HasAt(s, a, 0) && HasAt(s, b, |a|) && HasAt(s, c, |a| + |b|) && HasAt(s, d, |a| + |b| + |c|)
    ensures HasAt(s, e, |a| + |b| + |c| + |d|) && HasAt(s, f, |a| + |b| + |c| + |d| + |e|)
    ensures HasAt(s, g, |a| + |b| + |c| + |d| + |e| + |f|)
    ensures var n := |a| + |b| + |c| + |d| + |e| + |f| + |g|; n <= |s| && s[n..] == rest
  {
    hide HasAt;
    Piece(s, 0, a, b + (c + (d + (e + (f + (g + rest))))));
    Piece(s, |a|, b, c + (d + (e + (f + (g + rest)))));
    Piece(s, |a| + |b|, c, d + (e + (f + (g + rest))));
    FourPieces(s, |a| + |b| + |c|, d, e, f, g, rest);
  }

  lemma FourPieces(s: string, i: nat, a: string, b: string, c: string, d: string, rest: string)
    requires i <= |s| && s[i..] == a + (b + (c + (d + rest)))
    ensures HasAt(s, a, i) && HasAt(s, b, i + |a|) && HasAt(s, c, i + |a| + |b|) && HasAt(s, d, i + |a| + |b| + |c|)
    ensures var n := i + |a| + |b| + |c| + |d|; n <= |s| && s[n..] == rest
  {
    hide HasAt;
    Piece(s, i, a, b + (c + (d + rest)));
    Piece(s, i + |a|, b, c + (d + rest));
    Piece(s, i + |a| + |b|, c, d + rest);
    Piece(s, i + |a| + |b| + |c|, d, rest);
  }

  lemma BodyIsLaid(s: string, m: Mail)
    requires m.InnerAt() <= |s| && s[m.InnerAt()..] == m.Body()
    ensures BodyLaid(s, m) && |s| == m.Last() + |m.EndSep()| + 2
  {
    hide HasAt, SignatureHead;
    var tail := SignatureHead() + (CRLF + (m.signature + (CRLF + (m.EndSep() + CRLF))));
    FourPieces(s, m.InnerAt(), m.inner, CRLF, m.Sep(), CRLF, tail);
    FourPieces(s, m.SignatureHeadAt(), SignatureHead(), CRLF, m.signature, CRLF, m.EndSep() + CRLF);
    Piece(s, m.Last(), m.EndSep(), CRLF);
  }

  // ---- reading ----

  datatype Extracted = Absent | Crashed | Parts(signed: string, signature: string)

  function BoundaryOf(raw: string): Option<string> {
    var k := Find(Lower(raw), BoundaryKey(), 0);
    if k.None? then None else
    var start := k.value + |BoundaryKey()|;
    var end := Find(raw, "\"", start);
    if end.None? then None else Some(raw[start..end.value])
  }

  /** Where pat stands, without overlaps. */
  function Occurrences(s: string, pat: string, from: nat): seq<nat>
    requires pat != ""
    decreases |s| - from
  {
    var k := Find(s, pat, from);
    if k.None? then [] else [k.value] + Occurrences(s, pat, k.value + |pat|)
  }

  /** The end of the line that position from stands in. */
  function LineEnd(s: string, from: nat): (r: Option<nat>)
    ensures r.Some? ==> from < r.value <= |s|
  {
    var k := Find(s, CRLF, from);
    if k.Some? then Some(k.value + 2) else
    var n := Find(s, "\n", from);
    if n.Some? then Some(n.value + 1) else None
  }

  /** The line ending in front of a delimiter belongs to the delimiter. */
  function SignedEnd(s: string, second: nat): (r: nat)
    requires second <= |s|
    ensures r <= second
  {
    if second >= 2 && s[second - 2] == '\r' && s[second - 1] == '\n' then second - 2
    else if second >= 1 && s[second - 1] == '\n' then second - 1
    else second
  }

  function PartEnd(s: string, endSep: string, from: nat): (r: nat)
    requires from <= |s|
    ensures from <= r <= |s|
  {
    var k := Find(s, endSep, from);
    if k.Some? then k.value else |s|
  }

  /** The text behind the first blank line. */
  function WithoutHeaders(part: string): string {
    var k := Find(part, BLANK, 0);
    if k.Some? then part[k.value + 4..] else
    var n := Find(part, "\n\n", 0);
    if n.Some? then part[n.value + 2..] else part
  }

  function PartsBetween(raw: string, sep: string, first: nat, second: nat): Extracted
    requires first <= |raw| && second <= |raw|
  {
    var signedStart := LineEnd(raw, first);
    var signatureStart := LineEnd(raw, second);
    if signedStart.None? then Absent
    else if signedStart.value > SignedEnd(raw, second) then Crashed
    else if signatureStart.None? then Absent
    else
      var part := raw[signatureStart.value..PartEnd(raw, sep + "--", signatureStart.value)];
      Parts(raw[signedStart.value..SignedEnd(raw, second)], TrimEnd(WithoutHeaders(part), Unicode))
  }

  function ExtractParts(raw: string): Extracted {
    var boundary := BoundaryOf(raw);
    if boundary.None? then Absent else
    var sep := "--" + boundary.value;
    var at := Occurrences(raw, sep, 0);
    if |at| < 2 then Absent else
    OccurrencesInside(raw, sep, 0);
    PartsBetween(raw, sep, at[0], at[1])
  }

  lemma {:induction false} OccurrencesInside(s: string, pat: string, from: nat)
    requires pat != ""
    ensures forall i | 0 <= i < |Occurrences(s, pat, from)| :: Occurrences(s, pat, from)[i] <= |s|
    decreases |s| - from
  {
    var k := Find(s, pat, from);
    if k.Some? {
      OccurrencesInside(s, pat, k.value + |pat|);
      var more := Occurrences(s, pat, k.value + |pat|);
      assert forall i | 1 <= i < |[k.value] + more| :: ([k.value] + more)[i] == more[i - 1];
    }
  }

  lemma {:induction false} OccurrencesUnfold(s: string, pat: string, a: nat, b: nat)
    requires pat != "" && Find(s, pat, 0) == Some(a) && Find(s, pat, a + |pat|) == Some(b)
    ensures var at := Occurrences(s, pat, 0); |at| >= 2 && at[0] == a && at[1] == b
  {
    hide Find;
    var more := Occurrences(s, pat, a + |pat|);
    assert more[0] == b && Occurrences(s, pat, 0) == [a] + more;
  }
}
