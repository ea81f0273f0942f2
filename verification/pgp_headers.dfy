/** The text of a signed mail, line by line. */
module PgpHeaders {
  import opened Common
  import opened PgpMime
  import opened PgpSigned

  /** Lines, each ended by CRLF. */
  function CrlfLines(lines: seq<string>): string {
    if lines == [] then "" else CrlfLines(lines[..|lines| - 1]) + lines[|lines| - 1] + CRLF
  }

  lemma {:induction false} CrlfLinesAppend(a: seq<string>, b: seq<string>)
    ensures CrlfLines(a + b) == CrlfLines(a) + CrlfLines(b)
    decreases |b|
  {
    if b == [] {
      assert a + b == a && CrlfLines(a) + "" == CrlfLines(a);
    } else {
      var last := b[|b| - 1] + CRLF;
      assert (a + b)[..|a + b| - 1] == a + b[..|b| - 1];
      CrlfLinesAppend(a, b[..|b| - 1]);
      assert CrlfLines(a + b) == CrlfLines(a + b[..|b| - 1]) + last;
      assert CrlfLines(b) == CrlfLines(b[..|b| - 1]) + last;
      Associate(CrlfLines(a), CrlfLines(b[..|b| - 1]), last);
    }
  }

  function Named(name: string, values: seq<string>): seq<string> {
    seq(|values|, i requires 0 <= i < |values| => name + ": " + values[i])
  }

  function Optional(name: string, value: Option<string>): seq<string> {
    if value.Some? then [name + ": " + value.value] else []
  }

  lemma {:induction false} FieldsAre(name: string, values: seq<string>)
    ensures Fields(name, values) == CrlfLines(Named(name, values))
  {
    if values != [] {
      var fewer := values[..|values| - 1];
      FieldsAre(name, fewer);
      assert Named(name, values)[..|fewer|] == Named(name, fewer);
      var line := name + ": " + values[|values| - 1];
      assert Field(name, values[|values| - 1]) == line + CRLF;
      Associate(CrlfLines(Named(name, fewer)), line, CRLF);
    }
  }

  lemma OneLine(name: string, value: string)
    ensures Field(name, value) == CrlfLines([name + ": " + value])
  {
    FieldsAre(name, [value]);
    assert [value][..0] == [] && Named(name, [value]) == [name + ": " + value];
    assert Fields(name, [value]) == Fields(name, []) + Field(name, value);
    assert "" + Field(name, value) == Field(name, value);
  }

  lemma OptionalIs(name: string, value: Option<string>)
    ensures OptionalField(name, value) == CrlfLines(Optional(name, value))
  {
    if value.Some? {
      OneLine(name, value.value);
    }
  }

  /** The outer headers: date, sender, a line for each recipient and each copy, subject, and then what
      there is of message id, In-Reply-To, references on one line, and Autocrypt. */
  lemma HeaderLinesAre(h: OuterHeaders)
    ensures HeaderText(h) == CrlfLines(
      ["Date: " + if h.date.Some? then h.date.value else "Thu, 01 Jan 1970 00:00:00 +0000"] + ["From: " + h.from]
      + Named("To", h.to) + Named("Cc", h.cc) + ["Subject: " + h.subject] + Optional("Message-ID", h.messageId)
      + Optional("In-Reply-To", h.inReplyTo)
      + (if h.references != [] then ["References: " + SpaceJoined(h.references)] else [])
      + Optional("Autocrypt", h.autocrypt))
  {
    hide Field, Fields, CrlfLines, OptionalField, Named, Optional;
    var date := if h.date.Some? then h.date.value else "Thu, 01 Jan 1970 00:00:00 +0000";
    var references := if h.references != [] then ["References: " + SpaceJoined(h.references)] else [];
    var top, to, cc := ["Date: " + date] + ["From: " + h.from], Named("To", h.to), Named("Cc", h.cc);
    var id, reply := Optional("Message-ID", h.messageId), Optional("In-Reply-To", h.inReplyTo);
    SixNames();
    OneLine("Date", date);
    OneLine("From", h.from);
    CrlfLinesAppend(["Date: " + date], ["From: " + h.from]);
    FieldsAre("To", h.to);
    CrlfLinesAppend(top, to);
    FieldsAre("Cc", h.cc);
    CrlfLinesAppend(top + to, cc);
    OneLine("Subject", h.subject);
    CrlfLinesAppend(top + to + cc, ["Subject: " + h.subject]);
    OptionalIs("Message-ID", h.messageId);
    CrlfLinesAppend(top + to + cc + ["Subject: " + h.subject], id);
    OptionalIs("In-Reply-To", h.inReplyTo);
    CrlfLinesAppend(top + to + cc + ["Subject: " + h.subject] + id, reply);
    ReferencesAre(h.references);
    CrlfLinesAppend(top + to + cc + ["Subject: " + h.subject] + id + reply, references);
    OptionalIs("Autocrypt", h.autocrypt);
    CrlfLinesAppend(top + to + cc + ["Subject: " + h.subject] + id + reply + references,
                    Optional("Autocrypt", h.autocrypt));
  }

  lemma SixNames()
    ensures "Date" + ": " == "Date: " && "From" + ": " == "From: " && "Subject" + ": " == "Subject: "
    ensures "References" + ": " == "References: "
  {
  }

  lemma {:induction false} ReferencesAre(references: seq<string>)
    ensures (if references != [] then Field("References", SpaceJoined(references)) else "")
      == CrlfLines(if references != [] then ["References" + ": " + SpaceJoined(references)] else [])
  {
    hide Field;
    if references != [] {
      OneLine("References", SpaceJoined(references));
    }
  }

  /** References are joined by blanks. */
  lemma {:induction false} ReferencesJoin(a: seq<string>, b: seq<string>)
    requires a != [] && b != []
    ensures SpaceJoined(a + b) == SpaceJoined(a) + " " + SpaceJoined(b)
    decreases |a|
  {
    if |a| == 1 {
      assert (a + b)[1..] == b;
    } else {
      assert (a + b)[1..] == a[1..] + b;
      ReferencesJoin(a[1..], b);
    }
  }

  // ---- the envelope ----

  const CONTENT_TYPE :=
    "Content-Type: multipart/signed; " + "protocol=\"application/pgp-signature\"; " + "micalg=\"pgp-sha256\"; "
    + "boundary=\""
  const VERSION := "MIME-Version: 1.0"
  const SIGNATURE_TYPE := "Content-Type: " + "application/pgp-signature" + "; name=\"signature.asc\""
  const SIGNATURE_DESCRIPTION := "Content-Description: " + "OpenPGP digital signature"
  const SIGNATURE_DISPOSITION := "Content-Disposition: attachment" + "; filename=\"signature.asc\""

  lemma ContentTypeIs()
    ensures ContentType() + BoundaryKey() == CONTENT_TYPE
  {
  }

  lemma VersionIs()
    ensures AfterBoundary() == "\"" + CRLF + VERSION + CRLF + CRLF
  {
  }

  lemma TypeIs()
    ensures Type() + PgpType() + Name() == SIGNATURE_TYPE
  {
  }

  lemma DescriptionIs()
    ensures Description() + OpenPgp() == SIGNATURE_DESCRIPTION
    ensures Disposition() + Filename() == SIGNATURE_DISPOSITION
  {
  }

  lemma SignatureHeadIs()
    ensures SignatureHead()
      == SIGNATURE_TYPE + CRLF + SIGNATURE_DESCRIPTION + CRLF + SIGNATURE_DISPOSITION + CRLF
  {
    hide Type, PgpType, Name, Description, OpenPgp, Disposition, Filename;
    TypeIs();
    DescriptionIs();
    hide SIGNATURE_TYPE, SIGNATURE_DESCRIPTION, SIGNATURE_DISPOSITION;
    Associate(SIGNATURE_TYPE + CRLF, Description(), OpenPgp());
    Associate(SIGNATURE_TYPE + CRLF + SIGNATURE_DESCRIPTION + CRLF, Disposition(), Filename());
  }

  /** The signed mail as text. */
  lemma EnvelopeIs(m: Mail)
    ensures m.Text() ==
      m.head + CONTENT_TYPE + m.boundary + ("\"" + CRLF + VERSION + CRLF + CRLF)
      + ("--" + m.boundary + CRLF) + m.inner + CRLF + ("--" + m.boundary + CRLF)
      + (SIGNATURE_TYPE + CRLF + SIGNATURE_DESCRIPTION + CRLF + SIGNATURE_DISPOSITION + CRLF) + CRLF
      + m.signature + CRLF + ("--" + m.boundary + "--" + CRLF)
  {
    hide SignatureHead, ContentType, BoundaryKey, AfterBoundary;
    ContentTypeIs();
    VersionIs();
    SignatureHeadIs();
    hide CONTENT_TYPE, VERSION, SIGNATURE_TYPE, SIGNATURE_DESCRIPTION, SIGNATURE_DISPOSITION;
    Unnest(m, ContentType(), BoundaryKey(), AfterBoundary(), SignatureHead());
  }

  lemma Unnest(m: Mail, a: string, b: string, c: string, d: string)
    requires a == ContentType() && b == BoundaryKey() && c == AfterBoundary() && d == SignatureHead()
    ensures m.Text() == m.head + (a + b) + m.boundary + c + ("--" + m.boundary + CRLF) + m.inner + CRLF
      + ("--" + m.boundary + CRLF) + d + CRLF + m.signature + CRLF + ("--" + m.boundary + "--" + CRLF)
  {
    hide SignatureHead, ContentType, BoundaryKey, AfterBoundary;
  }

  // ---- boundaries ----

  /** Mails signed at different nanoseconds of a second have different boundaries. */
  lemma BoundariesDiffer(tag: string, a: Nanos, b: Nanos)
    requires MakeBoundary(tag, a) == MakeBoundary(tag, b)
    ensures a == b
  {
    hide Hex;
    var head := "inbx-" + tag + "-";
    assert Hex(a, 8) == MakeBoundary(tag, a)[|head|..];
    assert Hex(b, 8) == MakeBoundary(tag, b)[|head|..];
    HexIsInjective(a, b, 8);
    SixteenToEight(a);
    SixteenToEight(b);
  }

  function Sixteen(w: nat): nat {
    if w == 0 then 1 else 16 * Sixteen(w - 1)
  }

  lemma SixteenToEight(n: Nanos)
    ensures n < Sixteen(8)
  {
    assert Sixteen(4) == 65536;
  }

  lemma {:induction false} HexIsInjective(a: nat, b: nat, w: nat)
    requires Hex(a, w) == Hex(b, w) && a < Sixteen(w) && b < Sixteen(w)
    ensures a == b
    decreases w
  {
    if w > 0 {
      assert Hex(a, w)[..w - 1] == Hex(a / 16, w - 1) && Hex(b, w)[..w - 1] == Hex(b / 16, w - 1);
      assert Hex(a, w)[w - 1] == HexDigit(a % 16) && Hex(b, w)[w - 1] == HexDigit(b % 16);
      HexIsInjective(a / 16, b / 16, w - 1);
    }
  }
}
