/** What reading a signed mail gives back. */
module PgpRoundTrip {
  import opened Common
  import opened Text
  import opened PgpMime
  import opened Searching
  import opened PgpSigned

  /** A boundary as MakeBoundary makes it. */
  predicate OwnBoundary(b: string) {
    |b| > 4 && b[..4] == "inbx" && 'x' !in b[4..] && Plain(b) && '"' !in b
  }

  /** Headers that cannot be taken for the boundary's declaration or for a delimiter. */
  predicate PlainHead(head: string, boundary: string) {
    Clean(Lower(head), BoundaryKey()) && Clean(head, "--" + boundary)
  }

  predicate EndsLine(s: string) {
    s != "" && s[|s| - 1] == '\n'
  }

  predicate Sent(m: Mail) {
    OwnBoundary(m.boundary) && EndsLine(m.head) && PlainHead(m.head, m.boundary)
  }

  // ---- the fixed texts ----

  lemma MultipartIs()
    ensures 'b' !in Multipart() && 'B' !in Multipart() && 'x' !in Multipart()
  {
  }

  lemma ProtocolIs()
    ensures 'b' !in Protocol() && 'B' !in Protocol() && 'x' !in Protocol()
  {
  }

  lemma MicalgIs()
    ensures 'b' !in Micalg() && 'B' !in Micalg() && 'x' !in Micalg() && |Micalg()| > 0
    ensures Micalg()[|Micalg()| - 1] == ' '
  {
  }

  lemma ContentTypeIs()
    ensures 'b' !in Lower(ContentType()) && 'x' !in ContentType() && ContentType() != ""
    ensures ContentType()[|ContentType()| - 1] == ' '
  {
    hide Multipart, Protocol, Micalg;
    MultipartIs();
    ProtocolIs();
    MicalgIs();
    assert 'b' !in ContentType() && 'B' !in ContentType();
  }

  lemma BoundaryKeyIs()
    ensures Lower(BoundaryKey()) == BoundaryKey() && 'x' !in BoundaryKey() && '\n' !in BoundaryKey()
    ensures ' ' !in BoundaryKey() && |BoundaryKey()| == 10
    ensures BoundaryKey()[0] == 'b' && BoundaryKey()[9] == '"'
  {
  }

  lemma AfterBoundaryIs()
    ensures 'x' !in AfterBoundary() && EndsLine(AfterBoundary()) && AfterBoundary()[0] == '"'
  {
  }

  lemma PgpTypeIs()
    ensures 'x' !in PgpType() && Plain(PgpType()) && 'x' !in Type() && Plain(Type())
  {
  }

  lemma NamesAre()
    ensures 'x' !in Name() && 'x' !in Filename() && Plain(Name()) && Plain(Filename())
  {
  }

  lemma DescriptionIs()
    ensures 'x' !in Description() && Plain(Description()) && 'x' !in OpenPgp() && Plain(OpenPgp())
  {
  }

  lemma DispositionIs()
    ensures 'x' !in Disposition() && Plain(Disposition())
  {
  }

  lemma SignatureHeadIs()
    ensures 'x' !in SignatureHead() && EndsLine(SignatureHead())
  {
    hide Type, PgpType, Name, Description, OpenPgp, Disposition, Filename;
    PgpTypeIs();
    NamesAre();
    DescriptionIs();
    DispositionIs();
  }

  lemma SepIs(m: Mail)
    requires OwnBoundary(m.boundary)
    ensures |m.Sep()| > 6 && m.Sep()[0] == '-' && m.Sep()[5] == 'x' && Plain(m.Sep()) && '"' !in m.Sep()
    ensures |m.EndSep()| > 6 && m.EndSep()[5] == 'x' && Plain(m.EndSep())
  {
    assert m.Sep()[5] == m.boundary[..4][3];
  }

  // ---- the searches ----

  lemma FindsBoundary(s: string, m: Mail)
    requires Sent(m) && HeadLaid(s, m)
    ensures BoundaryOf(s) == Some(m.boundary)
  {
    hide HasAt, ContentType, BoundaryKey, AfterBoundary, Find;
    FindsKey(s, m);
    BoundaryKeyIs();
    AfterBoundaryIs();
    CleanWithout(m.boundary, "\"", 0);
    Skips(s, m.boundary, m.NameAt(), "\"");
    OccursAt(s, AfterBoundary(), m.NameAt() + |m.boundary|);
    IsSlice(s, AfterBoundary(), m.NameAt() + |m.boundary|);
    FindsChar(s, '"', m.NameAt() + |m.boundary|);
    IsSlice(s, m.boundary, m.NameAt());
  }

  lemma {:induction false} FindsChar(s: string, c: char, i: nat)
    requires i < |s| && s[i] == c
    ensures Find(s, [c], i) == Some(i)
  {
    assert s[i..i + 1] == [c];
  }

  lemma IsSlice(s: string, x: string, i: nat)
    requires HasAt(s, x, i)
    ensures i + |x| <= |s| && s[i..i + |x|] == x
  {
  }

  lemma FindsKey(s: string, m: Mail)
    requires Sent(m) && HeadLaid(s, m)
    ensures Find(Lower(s), BoundaryKey(), 0) == Some(|m.head| + |ContentType()|)
  {
    hide HasAt, ContentType, BoundaryKey, AfterBoundary, Lower;
    ContentTypeIs();
    BoundaryKeyIs();
    LoweredPiece(s, m.head, 0);
    LoweredPiece(s, ContentType(), |m.head|);
    LoweredPiece(s, BoundaryKey(), |m.head| + |ContentType()|);
    Skips(Lower(s), Lower(m.head), 0, BoundaryKey());
    CleanWithout(Lower(ContentType()), BoundaryKey(), 0);
    Skips(Lower(s), Lower(ContentType()), |m.head|, BoundaryKey());
  }

  /** A delimiter stands neither in its own name nor across the name's end. */
  lemma NameIsClean(m: Mail)
    requires OwnBoundary(m.boundary)
    ensures Clean(m.boundary + AfterBoundary(), m.Sep())
  {
    hide AfterBoundary;
    var x := m.boundary + AfterBoundary();
    AfterBoundaryIs();
    SepIs(m);
    assert m.boundary[0] == m.boundary[..4][0];
    assert forall k | 4 <= k < |m.boundary| :: m.boundary[k] == m.boundary[4..][k - 4];
    forall i | 0 <= i <= |x| ensures !HasAt(x, m.Sep(), i) {
      Mismatch(x, m.Sep(), i, if i == 0 then 0 else 5);
    }
  }

  lemma {:induction false} FindsFirst(s: string, m: Mail)
    requires Sent(m) && HeadLaid(s, m)
    ensures Find(s, m.Sep(), 0) == Some(m.First())
  {
    hide HasAt, ContentType, BoundaryKey, AfterBoundary;
    SepIs(m);
    ContentTypeIs();
    BoundaryKeyIs();
    AfterBoundaryIs();
    Skips(s, m.head, 0, m.Sep());
    var x, y := ContentType() + BoundaryKey(), m.boundary + AfterBoundary();
    Glued(s, |m.head|, ContentType(), BoundaryKey());
    CleanWithout(x, m.Sep(), 5);
    assert x[|x| - 1] == BoundaryKey()[9];
    Skips(s, x, |m.head|, m.Sep());
    Glued(s, m.NameAt(), m.boundary, AfterBoundary());
    NameIsClean(m);
    assert y[|y| - 1] == AfterBoundary()[|AfterBoundary()| - 1];
    Skips(s, y, m.NameAt(), m.Sep());
    FindsHere(s, m.Sep(), m.First());
  }

  lemma {:induction false} FindsHere(s: string, pat: string, i: nat)
    requires HasAt(s, pat, i)
    ensures Find(s, pat, i) == Some(i)
  {
  }

  lemma CrlfIsClean(pat: string)
    requires Plain(pat) && pat != ""
    ensures Clean(CRLF, pat) && Stops(CRLF, pat)
  {
    CleanWithout(CRLF, pat, 0);
  }

  /** The second delimiter is the first one behind the line of the first. */
  lemma {:induction false} FindsSecond(s: string, m: Mail)
    requires Sent(m) && HeadLaid(s, m) && BodyLaid(s, m)
    ensures Find(s, m.Sep(), m.First() + |m.Sep()|) == Find(s, m.Sep(), m.InnerAt())
    ensures Find(s, m.Sep(), m.InnerAt()).Some?
    ensures Clean(m.inner, m.Sep()) ==> Find(s, m.Sep(), m.InnerAt()) == Some(m.Second())
  {
    hide HasAt, Find, Clean, Stops, Mail.Sep;
    SepIs(m);
    CrlfIsClean(m.Sep());
    Skips(s, CRLF, m.First() + |m.Sep()|, m.Sep());
    FindsSome(s, m.Sep(), m.InnerAt(), m.Second());
    if Clean(m.inner, m.Sep()) {
      Glued(s, m.InnerAt(), m.inner, CRLF);
      LineIsClean(m.inner, m.Sep());
      Skips(s, m.inner + CRLF, m.InnerAt(), m.Sep());
      FindsHere(s, m.Sep(), m.Second());
    }
  }

  lemma LineIsClean(x: string, pat: string)
    requires Plain(pat) && pat != "" && Clean(x, pat)
    ensures Clean(x + CRLF, pat) && Stops(x + CRLF, pat)
  {
    hide Clean;
    CrlfIsClean(pat);
    CleanAppend(x, CRLF, pat);
  }

  lemma {:induction false} FindsSome(s: string, pat: string, from: nat, at: nat)
    requires from <= at && HasAt(s, pat, at)
    ensures Find(s, pat, from).Some?
  {
    FindIsFirst(s, pat, from);
  }

  lemma LineEndsBehind(s: string, x: string, i: nat)
    requires HasAt(s, x, i) && HasAt(s, CRLF, i + |x|) && Plain(x)
    ensures LineEnd(s, i) == Some(i + |x| + 2)
  {
    hide HasAt, Find, Clean;
    CleanWithout(x, CRLF, 0);
    Skips(s, x, i, CRLF);
    FindsHere(s, CRLF, i + |x|);
  }

  /** The reader looks between the first delimiter and the next one it finds. */
  lemma {:induction false} ReadsBetween(s: string, m: Mail)
    requires Sent(m) && HeadLaid(s, m) && BodyLaid(s, m)
    ensures m.First() <= |s| && Find(s, m.Sep(), m.InnerAt()).Some?
    ensures ExtractParts(s) == PartsBetween(s, m.Sep(), m.First(), Find(s, m.Sep(), m.InnerAt()).value)
  {
    hide HasAt, Find, Clean, Occurrences, PartsBetween, BoundaryOf, SignatureHead, ContentType, BoundaryKey,
        AfterBoundary, OwnBoundary, PlainHead;
    SepIs(m);
    FindsBoundary(s, m);
    FindsFirst(s, m);
    FindsSecond(s, m);
    OccurrencesUnfold(s, m.Sep(), m.First(), Find(s, m.Sep(), m.InnerAt()).value);
  }

  /** A delimiter inside the signed text cuts it short. */
  lemma DelimiterInsideCuts(s: string, m: Mail, j: nat)
    requires Sent(m) && HeadLaid(s, m) && BodyLaid(s, m) && HasAt(m.inner, m.Sep(), j)
    ensures ExtractParts(s).Parts? ==> |ExtractParts(s).signed| < |m.inner|
  {
    hide HasAt, Find, ExtractParts, Mail.Sep, TrimEnd, WithoutHeaders;
    SepIs(m);
    ReadsBetween(s, m);
    LineEndsBehind(s, m.Sep(), m.First());
    FindsNoLater(s, m.inner, m.InnerAt(), m.Sep(), j);
    FitsIn(m.inner, m.Sep(), j);
  }

  lemma FitsIn(x: string, pat: string, j: nat)
    requires HasAt(x, pat, j)
    ensures j + |pat| <= |x|
  {
  }

  // ---- the signature ----

  predicate IsField(a: string) {
    a != "" && Plain(a)
  }

  lemma FieldsAreClean(x: string, a: string)
    requires IsField(a) && (x != "" ==> x[|x| - 1] !in BLANK) && Clean(x, BLANK)
    ensures Clean(x + CRLF + a, BLANK) && Stops(x + CRLF + a, BLANK)
  {
    CleanWithout(a, BLANK, 0);
    CleanAppend(x, CRLF, BLANK);
    CleanAppend(x + CRLF, a, BLANK);
  }

  /** The blank line behind three fields is the first one. */
  lemma BlankBehindFields(a: string, b: string, c: string, rest: string)
    requires IsField(a) && IsField(b) && IsField(c)
    ensures WithoutHeaders((a + CRLF + b + CRLF + c + CRLF) + (CRLF + rest)) == rest
  {
    hide Clean, Find, HasAt, Stops, WithoutHeaders;
    CleanWithout(a, BLANK, 0);
    FieldsAreClean(a, b);
    FieldsAreClean(a + CRLF + b, c);
    BlankBehind(a + CRLF + b + CRLF + c, rest);
  }

  lemma BlankBehind(x: string, rest: string)
    requires Clean(x, BLANK) && Stops(x, BLANK)
    ensures WithoutHeaders((x + CRLF) + (CRLF + rest)) == rest
  {
    hide Clean, Find, HasAt, Stops;
    var part := (x + CRLF) + (CRLF + rest);
    BlankIs(x, rest);
    assert part[0..] == part;
    Piece(part, 0, x, BLANK + rest);
    Piece(part, |x|, BLANK, rest);
    Skips(part, x, 0, BLANK);
    FindsHere(part, BLANK, |x|);
  }

  lemma BlankIs(x: string, rest: string)
    ensures (x + CRLF) + (CRLF + rest) == x + (BLANK + rest)
  {
    assert CRLF + CRLF == BLANK;
    Associate(CRLF, CRLF, rest);
    Associate(x, CRLF, CRLF + rest);
  }

  lemma SignatureHeadersGo(rest: string)
    ensures WithoutHeaders(SignatureHead() + (CRLF + rest)) == rest
  {
    hide Type, PgpType, Name, Description, OpenPgp, Disposition, Filename, WithoutHeaders;
    PgpTypeIs();
    NamesAre();
    DescriptionIs();
    DispositionIs();
    var a, b, c := Type() + PgpType() + Name(), Description() + OpenPgp(), Disposition() + Filename();
    assert a != "" && b != "" && c != "" by {
      FieldsAreThere();
    }
    BlankBehindFields(a, b, c, rest);
    assert SignatureHead() == a + CRLF + b + CRLF + c + CRLF;
  }

  lemma FieldsAreThere()
    ensures Name() != "" && Description() != "" && Filename() != ""
  {
  }

  /** Where the signature's part ends. */
  lemma EndsSignature(s: string, m: Mail)
    requires Sent(m) && BodyLaid(s, m) && m.SignatureHeadAt() <= |s|
    ensures var f := PartEnd(s, m.EndSep(), m.SignatureHeadAt());
      && m.SignatureAt() <= f
      && (Clean(m.signature, m.EndSep()) ==> f == m.Last())
      && (forall j | HasAt(m.signature, m.EndSep(), j) :: f <= m.SignatureAt() + j)
  {
    hide HasAt, Find, Clean, Mail.EndSep, SignatureHead;
    var e := m.EndSep();
    SepIs(m);
    SignatureHeadIs();
    var head := SignatureHead() + CRLF;
    Glued(s, m.SignatureHeadAt(), SignatureHead(), CRLF);
    CleanWithout(head, e, 5);
    Skips(s, head, m.SignatureHeadAt(), e);
    FindsSome(s, e, m.SignatureAt(), m.Last());
    if Clean(m.signature, e) {
      Glued(s, m.SignatureAt(), m.signature, CRLF);
      LineIsClean(m.signature, e);
      Skips(s, m.signature + CRLF, m.SignatureAt(), e);
      FindsHere(s, e, m.Last());
    }
    forall j | HasAt(m.signature, e, j)
      ensures Find(s, e, m.SignatureHeadAt()).value <= m.SignatureAt() + j
    {
      FindsNoLater(s, m.signature, m.SignatureAt(), e, j);
    }
  }

  /** With no delimiter in the signed text, everything but the signature's end is settled. */
  lemma ReadsSignature(s: string, m: Mail)
    requires Sent(m) && HeadLaid(s, m) && BodyLaid(s, m) && Clean(m.inner, m.Sep())
    ensures m.SignatureHeadAt() <= |s|
    ensures var f := PartEnd(s, m.EndSep(), m.SignatureHeadAt());
      m.SignatureAt() <= f && ExtractParts(s) == Parts(m.inner, TrimEnd(s[m.SignatureAt()..f], Unicode))
  {
    hide HasAt, Find, Clean, Mail.Sep, SignatureHead, WithoutHeaders, TrimEnd, ExtractParts, PartEnd, SignedEnd,
        LineEnd;
    SepIs(m);
    ReadsBetween(s, m);
    FindsSecond(s, m);
    LineEndsBehind(s, m.Sep(), m.First());
    LineEndsBehind(s, m.Sep(), m.Second());
    EndsSignature(s, m);
    var f := PartEnd(s, m.EndSep(), m.SignatureHeadAt());
    IsSlice(s, m.inner, m.InnerAt());
    SignedStops(s, m.InnerAt() + |m.inner|);
    Glued(s, m.SignatureHeadAt(), SignatureHead(), CRLF);
    CutAt(s, m.SignatureHeadAt(), SignatureHead(), f);
    SignatureHeadersGo(s[m.SignatureAt()..f]);
  }

  lemma CutAt(s: string, i: nat, head: string, f: nat)
    requires HasAt(s, head + CRLF, i) && i + |head| + 2 <= f <= |s|
    ensures s[i..f] == head + (CRLF + s[i + |head| + 2..f])
  {
    var n := i + |head| + 2;
    assert s[i..f] == s[i..n] + s[n..f];
    Associate(head, CRLF, s[n..f]);
  }

  lemma SignedStops(s: string, i: nat)
    requires HasAt(s, CRLF, i)
    ensures i + 2 <= |s| && SignedEnd(s, i + 2) == i
  {
    OccursAt(s, CRLF, i);
    assert s[i + 0] == CRLF[0] && s[i + 1] == CRLF[1];
  }

  lemma {:induction false} TrimEndOfLine(x: string)
    ensures TrimEnd(x + CRLF, Unicode) == TrimEnd(x, Unicode)
  {
    assert (x + CRLF)[..|x| + 1] == x + "\r";
    assert (x + "\r")[..|x|] == x;
  }

  lemma {:induction false} TrimEndOfLess(x: string, n: nat, j: nat)
    requires n <= j < |x| && x[j] == '-'
    ensures TrimEnd(x[..n], Unicode) != TrimEnd(x, Unicode)
  {
    TrimEndFacts(x, Unicode);
  }

  /** Reading gives back what was signed, exactly when no delimiter hides in the texts. */
  lemma ReadsBackIff(m: Mail)
    requires Sent(m)
    ensures ExtractParts(m.Text()) == Parts(m.inner, TrimEnd(m.signature, Unicode))
      <==> Clean(m.inner, m.Sep()) && Clean(m.signature, m.EndSep())
  {
    hide HasAt, Find, Clean, ExtractParts, TrimEnd, Mail.Text, Mail.EndSep, Mail.Body, SignatureHead, PartEnd;
    var s := m.Text();
    HeadIsLaid(m);
    BodyIsLaid(s, m);
    if !Clean(m.inner, m.Sep()) {
      var j := SomewhereIn(m.inner, m.Sep());
      DelimiterInsideCuts(s, m, j);
    } else {
      ReadsSignature(s, m);
      EndsSignature(s, m);
      SignatureIff(s, m, PartEnd(s, m.EndSep(), m.SignatureHeadAt()));
    }
  }

  lemma SomewhereIn(x: string, pat: string) returns (j: nat)
    requires !Clean(x, pat)
    ensures HasAt(x, pat, j)
  {
    j :| 0 <= j <= |x| && HasAt(x, pat, j);
  }

  lemma SignatureIff(s: string, m: Mail, f: nat)
    requires OwnBoundary(m.boundary) && HasAt(s, m.signature, m.SignatureAt())
    requires HasAt(s, CRLF, m.SignatureAt() + |m.signature|) && m.SignatureAt() <= f <= |s|
    requires Clean(m.signature, m.EndSep()) ==> f == m.Last()
    requires forall j | HasAt(m.signature, m.EndSep(), j) :: f <= m.SignatureAt() + j
    ensures TrimEnd(s[m.SignatureAt()..f], Unicode) == TrimEnd(m.signature, Unicode)
      <==> Clean(m.signature, m.EndSep())
  {
    hide HasAt, Clean, TrimEnd, SignatureHead;
    Glued(s, m.SignatureAt(), m.signature, CRLF);
    if Clean(m.signature, m.EndSep()) {
      IsSlice(s, m.signature + CRLF, m.SignatureAt());
      TrimEndOfLine(m.signature);
    } else {
      var j := SomewhereIn(m.signature, m.EndSep());
      FitsIn(m.signature, m.EndSep(), j);
      OccursAt(m.signature, m.EndSep(), j);
      OccursAt(s, m.signature, m.SignatureAt());
      assert m.signature[j + 0] == m.EndSep()[0] == '-';
      var n := f - m.SignatureAt();
      assert s[m.SignatureAt()..f] == m.signature[..n];
      TrimEndOfLess(m.signature, n, j);
    }
  }
}
