/** When taking a signed mail apart indexes out of range. */
module PgpCrash {
  import opened Common
  import opened Text
  import opened Searching
  import opened PgpMime
  import opened PgpSigned

  /** The line end looked for behind a position: CRLF if any follows, else LF. */
  function LineEndKind(raw: string, from: nat): string
    requires from <= |raw|
  {
    if Contains(raw[from..], CRLF) then CRLF else "\n"
  }

  /** From the first delimiter to the second, without a line end right in front of the second. */
  function FirstPart(raw: string, first: nat, second: nat): string
    requires second <= |raw| && first <= SignedEnd(raw, second)
  {
    raw[first..SignedEnd(raw, second)]
  }

  /** A boundary is declared and stands as delimiter twice, lines go on behind the first one, and
      its line does not end in front of the second. */
  predicate FirstLineRunsOver(raw: string) {
    var boundary := BoundaryOf(raw);
    boundary.Some? &&
    var sep := "--" + boundary.value;
    var at := Occurrences(raw, sep, 0);
    |at| >= 2 &&
    (OccurrencesApart(raw, sep, 0); SignedEndIsNear(raw, at[1]);
     && Contains(raw[at[0]..], "\n")
     && !Contains(FirstPart(raw, at[0], at[1]), LineEndKind(raw, at[0])))
  }

  lemma SignedEndIsNear(raw: string, second: nat)
    requires second <= |raw|
    ensures second - 2 <= SignedEnd(raw, second) <= second
  {
  }

  lemma {:induction false} OccurrencesApart(s: string, pat: string, from: nat)
    requires |pat| >= 2
    ensures var at := Occurrences(s, pat, from);
      |at| >= 2 ==> at[0] + |pat| <= at[1] && at[1] + |pat| <= |s|
  {
    var k := Find(s, pat, from);
    if k.Some? {
      var more := Occurrences(s, pat, k.value + |pat|);
      assert more != [] ==> ([k.value] + more)[1] == more[0];
    }
  }

  lemma {:induction false} FoundBehind(s: string, pat: string, from: nat)
    requires pat != "" && from <= |s|
    ensures Find(s, pat, from).Some? <==> Contains(s[from..], pat)
  {
    hide HasAt;
    FindIsFirst(s, pat, from);
    assert s[from..|s|] == s[from..];
    forall i: nat | i <= |s| - from ensures HasAt(s[from..], pat, i) <==> HasAt(s, pat, from + i) {
      SliceHas(s, from, |s|, pat, i);
      HasAtFits(s, pat, from + i);
    }
    var k := Find(s, pat, from);
    if k.Some? {
      assert HasAt(s[from..], pat, k.value - from);
    }
  }

  /** A pattern occurs before a position exactly when its first occurrence ends there. */
  lemma {:induction false} FoundWithin(s: string, pat: string, from: nat, to: nat)
    requires pat != "" && from <= to <= |s|
    ensures Contains(s[from..to], pat) <==> Find(s, pat, from).Some? && Find(s, pat, from).value + |pat| <= to
  {
    hide HasAt;
    FindIsFirst(s, pat, from);
    forall i: nat | i <= to - from
      ensures HasAt(s[from..to], pat, i) <==> HasAt(s, pat, from + i) && from + i + |pat| <= to
    {
      SliceHas(s, from, to, pat, i);
    }
    var k := Find(s, pat, from);
    if k.Some? && k.value + |pat| <= to {
      assert HasAt(s[from..to], pat, k.value - from);
    }
  }

  lemma HasAtFits(s: string, pat: string, i: nat)
    ensures HasAt(s, pat, i) ==> i + |pat| <= |s|
  {
  }

  lemma SliceHas(s: string, from: nat, to: nat, pat: string, i: nat)
    requires from <= to <= |s|
    ensures HasAt(s[from..to], pat, i) <==> HasAt(s, pat, from + i) && from + i + |pat| <= to
  {
    if from + i + |pat| <= to {
      SliceOfSlice(s, from, to, i, i + |pat|);
    }
  }

  lemma LineRunsOver(raw: string, first: nat, to: nat)
    requires first <= to <= |raw|
    ensures LineEnd(raw, first).Some? <==> Contains(raw[first..], "\n")
    ensures LineEnd(raw, first).Some? ==>
      (LineEnd(raw, first).value > to <==> !Contains(raw[first..to], LineEndKind(raw, first)))
  {
    FoundWithin(raw, CRLF, first, to);
    FoundWithin(raw, "\n", first, to);
    FoundBehind(raw, CRLF, first);
    FoundBehind(raw, "\n", first);
    if Contains(raw[first..], CRLF) {
      CrlfHasLf(raw[first..]);
    }
  }

  lemma CrlfHasLf(s: string)
    requires Contains(s, CRLF)
    ensures Contains(s, "\n")
  {
    var i :| 0 <= i <= |s| && HasAt(s, CRLF, i);
    OccursAt(s, CRLF, i);
    assert s[i + 1] == CRLF[1];
    assert s[i + 1..i + 2] == "\n";
    assert HasAt(s, "\n", i + 1);
  }

  /** The extraction indexes out of range exactly on these texts. */
  lemma CrashesIff(raw: string)
    ensures ExtractParts(raw) == Crashed <==> FirstLineRunsOver(raw)
  {
    hide LineEnd, SignedEnd, Contains, Find, BoundaryOf, LineEndKind, Occurrences;
    var boundary := BoundaryOf(raw);
    if boundary.Some? {
      var sep := "--" + boundary.value;
      var at := Occurrences(raw, sep, 0);
      if |at| >= 2 {
        OccurrencesApart(raw, sep, 0);
        SignedEndIsNear(raw, at[1]);
        LineRunsOver(raw, at[0], SignedEnd(raw, at[1]));
      }
    }
  }

  // ---- an empty first part ----

  const EMPTY_PART := "boundary=\"b\"\r\n--b\r\n--b\r\n"

  /** A first part of one empty line is enough. */
  lemma EmptyPartCrashes()
    ensures ExtractParts(EMPTY_PART) == Crashed
  {
    hide ExtractParts, BoundaryOf, Find, Occurrences, Contains;
    EmptyPartBoundary();
    EmptyPartDelimiters();
    EmptyPartHasNoLineEnd();
    assert "--" + "b" == "--b";
    assert FirstPart(EMPTY_PART, 14, 19) == EMPTY_PART[14..17];
    assert FirstLineRunsOver(EMPTY_PART);
    CrashesIff(EMPTY_PART);
  }

  lemma EmptyPartBoundary()
    ensures BoundaryOf(EMPTY_PART) == Some("b")
  {
    var raw := EMPTY_PART;
    assert Lower(raw)[0..10] == BoundaryKey();
    FindsAt(Lower(raw), BoundaryKey(), 0, 0);
    assert raw[10..11] == "b" && raw[11..12] == "\"";
    FindsAt(raw, "\"", 10, 11);
  }

  lemma EmptyPartDelimiters()
    ensures var at := Occurrences(EMPTY_PART, "--b", 0); |at| >= 2 && at[0] == 14 && at[1] == 19
  {
    hide Find;
    var raw := EMPTY_PART;
    assert raw[14..17] == "--b" && raw[19..22] == "--b" && '-' !in raw[..14];
    forall i | 0 <= i < 14 ensures !HasAt(raw, "--b", i) {
      assert raw[i] == raw[..14][i];
      Mismatch(raw, "--b", i, 0);
    }
    FindsAt(raw, "--b", 0, 14);
    Mismatch(raw, "--b", 17, 0);
    Mismatch(raw, "--b", 18, 0);
    FindsAt(raw, "--b", 17, 19);
    OccurrencesUnfold(raw, "--b", 14, 19);
  }

  lemma EmptyPartHasNoLineEnd()
    ensures |EMPTY_PART| == 24 && SignedEnd(EMPTY_PART, 19) == 17
    ensures Contains(EMPTY_PART[14..], "\n") && LineEndKind(EMPTY_PART, 14) == CRLF
    ensures !Contains(EMPTY_PART[14..17], CRLF)
  {
    var raw := EMPTY_PART;
    assert raw[17] == '\r' && raw[18] == '\n' && raw[14..17] == "--b";
    assert raw[14..][3..5] == CRLF && HasAt(raw[14..], CRLF, 3);
    assert Contains(raw[14..], CRLF);
    CrlfHasLf(raw[14..]);
    CleanWithout(raw[14..17], CRLF, 0);
  }
}
