/** What taking a signed mail apart finds, for any text and any line endings. */
module PgpExtract {
  import opened Common
  import opened Text
  import opened Searching
  import opened PgpMime
  import opened PgpSigned

  /** The first occurrence of the pattern at or behind a position. */
  ghost predicate IsFirst(s: string, pat: string, from: nat, at: nat) {
    from <= at && HasAt(s, pat, at) && forall i | from <= i < at :: !HasAt(s, pat, i)
  }

  ghost predicate Nowhere(s: string, pat: string, from: nat) {
    forall i | from <= i :: !HasAt(s, pat, i)
  }

  /** The line of position `from` ends before position `end`: with the first CRLF, or if none follows
      with the first LF. */
  ghost predicate LineEndsAt(s: string, from: nat, end: nat) {
    || (end >= 2 && IsFirst(s, "\r\n", from, end - 2))
    || (end >= 1 && Nowhere(s, "\r\n", from) && IsFirst(s, "\n", from, end - 1))
  }

  /** Between the end of the signed text and the delimiter there is the delimiter's own line end. */
  predicate StopsBefore(s: string, end: nat, delimiter: nat) {
    && end <= delimiter <= |s|
    && match delimiter - end
       case 2 => s[end] == '\r' && s[end + 1] == '\n'
       case 1 => s[end] == '\n' && (end > 0 ==> s[end - 1] != '\r')
       case 0 => end > 0 ==> s[end - 1] != '\n'
       case _ => false
  }

  ghost predicate IsBody(part: string, body: string) {
    || (exists k :: IsFirst(part, "\r\n\r\n", 0, k) && body == part[k + 4..])
    || (Nowhere(part, "\r\n\r\n", 0) && exists k :: IsFirst(part, "\n\n", 0, k) && body == part[k + 2..])
    || (Nowhere(part, "\r\n\r\n", 0) && Nowhere(part, "\n\n", 0) && body == part)
  }

  lemma LineEndIs(s: string, from: nat, end: nat)
    requires LineEndsAt(s, from, end)
    ensures LineEnd(s, from) == Some(end)
  {
    hide HasAt;
    FindIsFirst(s, "\r\n", from);
    if end >= 2 && IsFirst(s, "\r\n", from, end - 2) {
      FindsAt(s, "\r\n", from, end - 2);
    } else {
      FindsAt(s, "\n", from, end - 1);
    }
  }

  lemma {:induction false} FindsFirst(s: string, pat: string, from: nat, at: nat)
    requires IsFirst(s, pat, from, at)
    ensures Find(s, pat, from) == Some(at)
  {
    FindsAt(s, pat, from, at);
  }

  lemma BodyIs(part: string, body: string)
    requires IsBody(part, body)
    ensures WithoutHeaders(part) == body
  {
    hide HasAt;
    FindIsFirst(part, "\r\n\r\n", 0);
    FindIsFirst(part, "\n\n", 0);
    if k :| IsFirst(part, "\r\n\r\n", 0, k) && body == part[k + 4..] {
      FindsFirst(part, "\r\n\r\n", 0, k);
    } else if k :| IsFirst(part, "\n\n", 0, k) && body == part[k + 2..] {
      FindsFirst(part, "\n\n", 0, k);
    }
  }

  // Where the pieces of a signed mail stand.
  datatype Places = Places(
    key: nat, quote: nat, first: nat, second: nat, signed: nat, signedEnd: nat, part: nat, partEnd: nat)

  ghost predicate Located(raw: string, at: Places) {
    && IsFirst(Lower(raw), "boundary=\"", 0, at.key)
    && IsFirst(raw, "\"", at.key + 10, at.quote)
    && at.key + 10 <= at.quote <= |raw|
    && var sep := "--" + raw[at.key + 10..at.quote];
       && IsFirst(raw, sep, 0, at.first) && IsFirst(raw, sep, at.first + |sep|, at.second)
       && LineEndsAt(raw, at.first, at.signed) && StopsBefore(raw, at.signedEnd, at.second)
       && at.signed <= at.signedEnd
       && LineEndsAt(raw, at.second, at.part)
       && at.part <= at.partEnd <= |raw|
       && (IsFirst(raw, sep + "--", at.part, at.partEnd)
           || (Nowhere(raw, sep + "--", at.part) && at.partEnd == |raw|))
  }

  lemma PartEndIs(raw: string, endSep: string, from: nat, end: nat)
    requires from <= end <= |raw|
    requires IsFirst(raw, endSep, from, end) || (Nowhere(raw, endSep, from) && end == |raw|)
    ensures PartEnd(raw, endSep, from) == end
  {
    FindIsFirst(raw, endSep, from);
    if IsFirst(raw, endSep, from, end) {
      FindsFirst(raw, endSep, from, end);
    }
  }

  lemma SignedEndIs(raw: string, end: nat, second: nat)
    requires StopsBefore(raw, end, second)
    ensures SignedEnd(raw, second) == end
  {
  }

  lemma BoundaryIs(raw: string, at: Places)
    requires Located(raw, at)
    ensures BoundaryOf(raw) == Some(raw[at.key + 10..at.quote])
  {
    hide HasAt, Find;
    assert |BoundaryKey()| == 10;
    FindsFirst(Lower(raw), BoundaryKey(), 0, at.key);
    FindsFirst(raw, "\"", at.key + 10, at.quote);
  }

  /**
    The boundary is declared in any case; the signed text starts behind the line of the first
    delimiter and ends in front of the second one's line end; the signature is what follows the
    headers behind the second, up to the closing delimiter, without white space at its end.
  */
  lemma {:induction false} PartsAreRead(raw: string, at: Places, body: string)
    requires Located(raw, at) && IsBody(raw[at.part..at.partEnd], body)
    ensures ExtractParts(raw) == Parts(raw[at.signed..at.signedEnd], TrimEnd(body, Unicode))
  {
    hide HasAt, Find, BoundaryOf, LineEnd, SignedEnd, PartEnd, WithoutHeaders, TrimEnd, IsBody;
    var sep := "--" + raw[at.key + 10..at.quote];
    BoundaryIs(raw, at);
    FindsFirst(raw, sep, 0, at.first);
    FindsFirst(raw, sep, at.first + |sep|, at.second);
    OccurrencesUnfold(raw, sep, at.first, at.second);
    LineEndIs(raw, at.first, at.signed);
    LineEndIs(raw, at.second, at.part);
    SignedEndIs(raw, at.signedEnd, at.second);
    PartEndIs(raw, sep + "--", at.part, at.partEnd);
    BodyIs(raw[at.part..at.partEnd], body);
  }
}
