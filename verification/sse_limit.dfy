/** Which streams hit the record limit, and that it can depend on the cuts. */
module SseLimit {
  import opened Common
  import opened Sse

  /**
    Some record of the stream passes the limit, the first of its two line terminators included.
    A terminator CRLF at the end of a record may be cut in the middle; its LF then counts towards
    the next record.
  */
  predicate Refusable(s: string)
    decreases |s|
  {
    match FirstBlank(s, 0)
    case None => |s| > MAX_SSE_RECORD_BYTES
    case Some(end) =>
      var first, n := LineEndingLen(s, end), end + BlankAt(s, end);
      || end + first > MAX_SSE_RECORD_BYTES
      || Refusable(s[n..])
      || (LineEndingLen(s, end + first) == 2 && Refusable(s[n - 1..]))
  }

  ghost predicate SomeCutRefuses(s: string) {
    exists chunks | Flatten(chunks) == s :: Refuses("", chunks)
  }

  // ---- a refusal needs a long record ----

  /** Where the buffer has no blank line and the stream has, the second terminator is not in the buffer. */
  lemma BlankBehind(buf: string, rest: string, i: nat)
    requires BlankAt(buf, i) == 0 && BlankAt(buf + rest, i) > 0
    ensures |buf| <= i + LineEndingLen(buf + rest, i)
  {
  }

  /** A blank line in the buffer is one in the stream, but for the LF of a CRLF that is still to come. */
  lemma BlankCut(buf: string, rest: string, i: nat)
    requires BlankAt(buf, i) > 0
    ensures var d := BlankAt(buf + rest, i);
      BlankAt(buf, i) == d
      || (BlankAt(buf, i) == d - 1 && LineEndingLen(buf + rest, i + LineEndingLen(buf + rest, i)) == 2)
  {
  }

  lemma {:induction false} RefusalIsRefusable(buf: string, chunks: seq<string>)
    requires Refuses(buf, chunks)
    ensures Refusable(buf + Flatten(chunks))
    decreases |chunks|, |buf|
  {
    hide FirstBlank, BlankAt, LineEndingLen;
    var rest := Flatten(chunks);
    var s := buf + rest;
    if FirstBlank(buf, 0).Some? {
      var end := FirstBlank(buf, 0).value;
      SameFirstBlank(buf, rest);
      if end <= MAX_SSE_RECORD_BYTES {
        BlankIsTwo(buf, end);
        var n := end + BlankAt(buf, end);
        RefusalIsRefusable(buf[n..], chunks);
        BlankCut(buf, rest, end);
        assert buf[n..] + rest == s[n..];
      }
    } else {
      var more, left := buf + chunks[0], Flatten(chunks[1..]);
      Associate(buf, chunks[0], left);
      if FirstBlank(more, 0).None? && |more| > MAX_SSE_RECORD_BYTES {
        BeforeFirstBlank(more, 0);
        if FirstBlank(s, 0).Some? {
          BlankBehind(more, left, FirstBlank(s, 0).value);
        }
      } else {
        RefusalIsRefusable(more, chunks[1..]);
      }
    }
  }

  // ---- a long record is refused when it is cut in the right place ----

  lemma {:induction false} NoBlankBefore(s: string, n: nat)
    requires FirstBlank(s, 0).Some?
    requires n <= FirstBlank(s, 0).value + LineEndingLen(s, FirstBlank(s, 0).value) <= |s|
    ensures FirstBlank(s[..n], 0) == None
  {
    hide BlankAt, LineEndingLen;
    var buf := s[..n];
    assert s == buf + s[n..];
    BeforeFirstBlank(s, 0);
    EndingsFit(s, FirstBlank(s, 0).value);
    forall i: nat ensures BlankAt(buf, i) == 0 {
      if BlankAt(buf, i) > 0 {
        BlankAtMore(buf, s[n..], i);
        BlankCutFits(buf, s[n..], i);
        EndingsFit(s, i);
      }
    }
    FirstBlankIs(buf, 0, None);
  }

  lemma BlankCutFits(buf: string, rest: string, i: nat)
    ensures BlankAt(buf, i) > 0 ==> i + LineEndingLen(buf + rest, i) < |buf|
  {
  }

  /** A chunk that ends with a blank line is one record, and the next one starts with an empty buffer. */
  lemma {:induction false} RecordByItself(buf: string, chunks: seq<string>)
    requires FirstBlank(buf, 0).Some? && FirstBlank(buf, 0).value + BlankAt(buf, FirstBlank(buf, 0).value) == |buf|
    requires Refuses("", chunks)
    ensures Refuses("", [buf] + chunks) && Flatten([buf] + chunks) == buf + Flatten(chunks)
  {
    hide BlankAt;
    assert FirstBlank("", 0).None? && "" + buf == buf && ([buf] + chunks)[1..] == chunks;
    assert Refuses(buf, chunks) by {
      assert buf[|buf|..] == "";
    }
  }

  lemma {:induction false} RefusableIsRefused(s: string) returns (chunks: seq<string>)
    requires Refusable(s)
    ensures Flatten(chunks) == s && Refuses("", chunks)
    decreases |s|
  {
    hide FirstBlank, BlankAt, LineEndingLen, Refuses;
    var blank := FirstBlank(s, 0);
    if blank.None? {
      chunks := [s] + [];
      OneChunk(s, []);
    } else {
      var end := blank.value;
      var first, n := LineEndingLen(s, end), end + BlankAt(s, end);
      BlankIsTwo(s, end);
      EndingsFit(s, end);
      if end + first > MAX_SSE_RECORD_BYTES {
        NoBlankBefore(s, end + first);
        chunks := [s[..end + first]] + [s[end + first..]];
        OneChunk(s[..end + first], [s[end + first..]]);
        assert s == s[..end + first] + s[end + first..];
      } else {
        var cut := if Refusable(s[n..]) then n else n - 1;
        var more := RefusableIsRefused(s[cut..]);
        CutRecord(s, cut);
        RecordByItself(s[..cut], more);
        chunks := [s[..cut]] + more;
        assert s == s[..cut] + s[cut..];
      }
    }
  }

  lemma {:induction false} OneChunk(buf: string, chunks: seq<string>)
    requires FirstBlank(buf, 0).None? && |buf| > MAX_SSE_RECORD_BYTES && |chunks| <= 1
    ensures Refuses("", [buf] + chunks)
    ensures Flatten([buf] + chunks) == buf + if chunks == [] then "" else chunks[0]
  {
    assert FirstBlank("", 0).None? && "" + buf == buf;
    assert ([buf] + chunks)[1..] == chunks;
    assert Flatten([]) == "" && buf + "" == buf;
    if chunks != [] {
      assert chunks[0] + "" == chunks[0] && chunks[1..] == [];
      assert Flatten(chunks) == chunks[0] + Flatten(chunks[1..]);
    }
  }

  lemma EndingsFit(s: string, end: nat)
    requires BlankAt(s, end) > 0
    ensures 1 <= LineEndingLen(s, end) <= 2
    ensures LineEndingLen(s, end) < BlankAt(s, end) && end + BlankAt(s, end) <= |s|
  {
  }

  /** A record cut behind its blank line, or before the LF of a CRLF that ends it, still ends with one. */
  lemma {:induction false} CutRecord(s: string, n: nat)
    requires FirstBlank(s, 0).Some? && n <= |s|
    requires var end := FirstBlank(s, 0).value; var d := BlankAt(s, end);
      n == end + d || (n == end + d - 1 && LineEndingLen(s, end + LineEndingLen(s, end)) == 2)
    ensures FirstBlank(s[..n], 0) == FirstBlank(s, 0)
    ensures FirstBlank(s, 0).value + BlankAt(s[..n], FirstBlank(s, 0).value) == n
  {
    hide FirstBlank;
    var buf, end := s[..n], FirstBlank(s, 0).value;
    assert s == buf + s[n..];
    BlankInCut(s, n, end);
    BeforeFirstBlank(s, 0);
    forall i: nat | i < end ensures BlankAt(buf, i) == 0 {
      BlankAtMore(buf, s[n..], i);
    }
    FirstBlankIs(buf, 0, Some(end));
  }

  lemma BlankInCut(s: string, n: nat, end: nat)
    requires BlankAt(s, end) > 0 && n <= |s|
    requires n == end + BlankAt(s, end)
          || (n == end + BlankAt(s, end) - 1 && LineEndingLen(s, end + LineEndingLen(s, end)) == 2)
    ensures BlankAt(s[..n], end) > 0 && end + BlankAt(s[..n], end) == n
  {
  }

  /** A stream is refused under some cut exactly when it has such a record; under all other cuts, and
      on all other streams, every payload is delivered. */
  lemma {:induction false} SomeCutRefusesIff(s: string)
    ensures SomeCutRefuses(s) <==> Refusable(s)
  {
    if Refusable(s) {
      var _ := RefusableIsRefused(s);
    }
    forall chunks | Flatten(chunks) == s && Refuses("", chunks) ensures Refusable(s) {
      RefusalIsRefusable("", chunks);
      assert "" + Flatten(chunks) == s;
    }
  }

  // ---- a record that some cuts refuse and others do not ----

  const LONGEST := seq(MAX_SSE_RECORD_BYTES, _ => 'x')

  lemma LongestHasNoBlank(n: nat)
    requires n <= 2
    ensures FirstBlank(LONGEST + ["", "\n", "\n\n"][n], 0) == if n == 2 then Some(MAX_SSE_RECORD_BYTES) else None
    ensures n == 2 ==> BlankAt(LONGEST + "\n\n", MAX_SSE_RECORD_BYTES) == 2
  {
    var tail := ["", "\n", "\n\n"][n];
    BlankAtShift(LONGEST, tail, 0);
    BlankAtShift(LONGEST, tail, 1);
    FirstBlankIs(LONGEST + tail, 0, if n == 2 then Some(MAX_SSE_RECORD_BYTES) else None);
  }

  /** A record of exactly the limit is delivered in one piece, and refused when it comes without its last LF. */
  lemma LongestDependsOnCut()
    ensures !Refuses("", [LONGEST + "\n\n"]) && Refuses("", [LONGEST + "\n", "\n"])
  {
    LongestHasNoBlank(1);
    LongestHasNoBlank(2);
    var s := LONGEST + "\n\n";
    assert FirstBlank("", 0).None? && "" + s == s && "" + (LONGEST + "\n") == LONGEST + "\n";
    assert s[MAX_SSE_RECORD_BYTES + 2..] == "";
    var one := [s];
    assert one[1..] == [];
    assert !Refuses("", []) && !Refuses(s, []);
    OneChunk(LONGEST + "\n", ["\n"]);
    assert [LONGEST + "\n"] + ["\n"] == [LONGEST + "\n", "\n"];
  }
}
