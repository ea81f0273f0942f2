/**
  The incremental event-stream parser of the JMAP client: whatever way the bytes are cut
  into chunks, the payloads are those of the uncut stream.
*/
module Sse {
  import opened Common
  import opened Text

  const MAX_SSE_RECORD_BYTES: nat := 1024 * 1024

  /** Length of the line terminator at position i; 0 when there is none. */
  function LineEndingLen(buf: string, i: nat): nat {
    if i >= |buf| then 0
    else if buf[i] == '\r' && i + 1 < |buf| && buf[i + 1] == '\n' then 2
    else if buf[i] == '\r' || buf[i] == '\n' then 1
    else 0
  }

  /** Length of the two line terminators that start at position i; 0 when there are not two. */
  function BlankAt(buf: string, i: nat): nat {
    var first := LineEndingLen(buf, i);
    var second := LineEndingLen(buf, i + first);
    if first == 0 || second == 0 then 0 else first + second
  }

  function FirstBlank(buf: string, from: nat): (r: Option<nat>)
    ensures r.Some? ==> from <= r.value && BlankAt(buf, r.value) > 0
    ensures r.Some? ==> r.value + BlankAt(buf, r.value) <= |buf|
    decreases |buf| - from
  {
    if from >= |buf| then None
    else if BlankAt(buf, from) > 0 then Some(from)
    else FirstBlank(buf, from + 1)
  }

  lemma {:induction false} FirstBlankIs(buf: string, from: nat, r: Option<nat>)
    requires r.Some? ==> from <= r.value && BlankAt(buf, r.value) > 0
    requires forall i | from <= i && (r.Some? ==> i < r.value) :: BlankAt(buf, i) == 0
    ensures FirstBlank(buf, from) == r
    decreases |buf| - from
  {
    if from < |buf| && BlankAt(buf, from) == 0 {
      FirstBlankIs(buf, from + 1, r);
    }
  }

  lemma {:induction false} BeforeFirstBlank(buf: string, from: nat)
    ensures var r := FirstBlank(buf, from);
      forall i | from <= i && (r.Some? ==> i < r.value) :: BlankAt(buf, i) == 0
    decreases |buf| - from
  {
    if from < |buf| && BlankAt(buf, from) == 0 {
      BeforeFirstBlank(buf, from + 1);
    }
  }

  // ---- one record ----

  /** CRLF and CR become LF. */
  function Unify(raw: string): string {
    if raw == "" then ""
    else if LineEndingLen(raw, 0) > 0 then "\n" + Unify(raw[LineEndingLen(raw, 0)..])
    else [raw[0]] + Unify(raw[1..])
  }

  function AfterLine(text: string): string {
    if LineLen(text) < |text| then text[LineLen(text) + 1..] else ""
  }

  /** The data collected so far with one more line of the record. */
  function AddLine(data: string, line: string): string {
    if HasAt(line, "data:", 0)
    then (if data == "" then "" else data + "\n") + TrimStart(line[5..], Unicode)
    else data
  }

  function Gather(text: string, data: string): string
    decreases |text|
  {
    if text == "" then data else Gather(AfterLine(text), AddLine(data, text[..LineLen(text)]))
  }

  function Payload(raw: string): string {
    Gather(Unify(raw), "")
  }

  // ---- the uncut stream ----

  /** The non-empty payloads of a whole stream, read in one pass. */
  function Parse(s: string): seq<string>
    decreases |s|
  {
    match FirstBlank(s, 0)
    case None => []
    case Some(end) => Emit(s[..end]) + Parse(s[end + BlankAt(s, end)..])
  }

  function Emit(raw: string): seq<string> {
    if Payload(raw) == "" then [] else [Payload(raw)]
  }

  // ---- why the cuts do not matter ----

  lemma BlankAtShift(a: string, u: string, i: nat)
    ensures LineEndingLen(a + u, |a| + i) == LineEndingLen(u, i)
    ensures BlankAt(a + u, |a| + i) == BlankAt(u, i)
  {
    var s := a + u;
    assert forall k: nat | k < |u| :: s[|a| + k] == u[k];
    var n := LineEndingLen(u, i);
    assert LineEndingLen(s, |a| + i) == n;
    assert LineEndingLen(s, |a| + (i + n)) == LineEndingLen(u, i + n);
  }

  lemma LeadingEndingIsMute(ending: string, raw: string)
    requires ending != "" && LineEndingLen(ending + raw, 0) == |ending|
    ensures Payload(ending + raw) == Payload(raw)
  {
    assert (ending + raw)[|ending|..] == raw;
    var text := "\n" + Unify(raw);
    assert Unify(ending + raw) == text;
    assert LineLen(text) == 0 && text[..0] == "" && AfterLine(text) == Unify(raw);
  }

  /** A line terminator in front of a stream only shifts its first blank line. */
  lemma {:induction false} ShiftFirstBlank(ending: string, u: string)
    requires ending != "" && LineEndingLen(ending + u, 0) == |ending| && LineEndingLen(u, 0) == 0
    ensures var r := FirstBlank(u, 0);
      FirstBlank(ending + u, 0) == (if r.None? then None else Some(|ending| + r.value))
  {
    hide FirstBlank, BlankAt, LineEndingLen;
    var s, n, r := ending + u, |ending|, FirstBlank(u, 0);
    BeforeFirstBlank(u, 0);
    EndingHasNoBlank(ending, u);
    forall i: nat | n <= i && (r.Some? ==> i < n + r.value) ensures BlankAt(s, i) == 0 {
      BlankAtShift(ending, u, i - n);
    }
    if r.Some? {
      BlankAtShift(ending, u, r.value);
    }
    FirstBlankIs(s, 0, if r.None? then None else Some(n + r.value));
  }

  lemma EndingHasNoBlank(ending: string, u: string)
    requires ending != "" && LineEndingLen(ending + u, 0) == |ending| && LineEndingLen(u, 0) == 0
    ensures forall i: nat | i < |ending| :: BlankAt(ending + u, i) == 0
  {
    BlankAtShift(ending, u, 0);
  }

  lemma {:induction false} ParseFrom(s: string, end: nat)
    requires FirstBlank(s, 0) == Some(end)
    ensures Parse(s) == Emit(s[..end]) + Parse(s[end + BlankAt(s, end)..])
  {
    hide FirstBlank, BlankAt, Emit;
  }

  lemma {:induction false} ParseNothing(s: string)
    requires FirstBlank(s, 0).None?
    ensures Parse(s) == []
  {
  }

  lemma {:induction false} SkipBeforeText(ending: string, u: string)
    requires ending != "" && LineEndingLen(ending + u, 0) == |ending| && LineEndingLen(u, 0) == 0
    ensures Parse(ending + u) == Parse(u)
  {
    hide Parse, FirstBlank, BlankAt, LineEndingLen, Payload;
    ShiftFirstBlank(ending, u);
    if FirstBlank(u, 0).None? {
      ParseNothing(u);
      ParseNothing(ending + u);
    } else {
      var e := FirstBlank(u, 0).value;
      ParseFrom(u, e);
      ParseFrom(ending + u, |ending| + e);
      BlankAtShift(ending, u, e);
      CutBehind(ending, u, e);
      CutBehind(ending, u, e + BlankAt(u, e));
      ShortRecord(ending, u, e);
      LeadingEndingIsMute(ending, u[..e]);
    }
  }

  lemma ShortRecord(ending: string, u: string, e: nat)
    requires ending != "" && LineEndingLen(ending + u, 0) == |ending| && LineEndingLen(u, 0) == 0
    requires e <= |u|
    ensures LineEndingLen(ending + u[..e], 0) == |ending|
  {
  }

  /** A line terminator in front of a stream changes no payload. */
  lemma {:induction false} SkipEnding(ending: string, u: string)
    requires ending != "" && LineEndingLen(ending + u, 0) == |ending|
    ensures Parse(ending + u) == Parse(u)
    decreases |u|
  {
    var k := LineEndingLen(u, 0);
    if k == 0 {
      SkipBeforeText(ending, u);
    } else {
      SkipTwo(ending, u);
      assert u == u[..k] + u[k..];
      SkipEnding(u[..k], u[k..]);
    }
  }

  lemma {:induction false} SkipTwo(ending: string, u: string)
    requires ending != "" && LineEndingLen(ending + u, 0) == |ending| && LineEndingLen(u, 0) > 0
    ensures Parse(ending + u) == Parse(u[LineEndingLen(u, 0)..])
  {
    hide Parse;
    var s, k := ending + u, LineEndingLen(u, 0);
    BlankAtShift(ending, u, 0);
    ParseFrom(s, 0);
    CutBehind(ending, u, k);
    assert Payload("") == "";
  }

  /** Bytes still to come can only lengthen a delimiter at the end of the buffer, by an LF. */
  lemma BlankAtMore(buf: string, rest: string, i: nat)
    ensures BlankAt(buf, i) > 0 ==>
      var d, d' := BlankAt(buf, i), BlankAt(buf + rest, i);
      d' == d || (d' == d + 1 && i + d == |buf| && rest != "" && rest[0] == '\n')
    ensures BlankAt(buf, i) == 0 && i + 2 < |buf| ==> BlankAt(buf + rest, i) == 0
    ensures BlankAt(buf, i) == 0 && BlankAt(buf + rest, i) > 0 ==> i + 2 >= |buf|
  {
  }

  lemma {:induction false} SameFirstBlank(buf: string, rest: string)
    requires FirstBlank(buf, 0).Some?
    ensures FirstBlank(buf + rest, 0) == FirstBlank(buf, 0)
  {
    hide FirstBlank, BlankAt;
    var s, end := buf + rest, FirstBlank(buf, 0).value;
    BeforeFirstBlank(buf, 0);
    BlankIsTwo(buf, end);
    forall i: nat | i < end ensures BlankAt(s, i) == 0 {
      BlankAtMore(buf, rest, i);
    }
    BlankAtMore(buf, rest, end);
    FirstBlankIs(s, 0, Some(end));
  }

  lemma BlankIsTwo(buf: string, i: nat)
    ensures BlankAt(buf, i) > 0 ==> BlankAt(buf, i) >= 2
  {
  }

  /** What follows a record in the stream reads as what follows it in the buffer. */
  lemma {:induction false} BehindRecord(buf: string, rest: string, end: nat)
    requires BlankAt(buf, end) > 0 && end + BlankAt(buf, end) <= |buf|
    ensures end + BlankAt(buf + rest, end) <= |buf + rest|
    ensures Parse((buf + rest)[end + BlankAt(buf + rest, end)..]) == Parse(buf[end + BlankAt(buf, end)..] + rest)
  {
    hide Parse, BlankAt;
    var s, d := buf + rest, BlankAt(buf, end);
    BlankAtMore(buf, rest, end);
    if BlankAt(s, end) == d {
      assert s[end + d..] == buf[end + d..] + rest;
    } else {
      assert s[end + d + 1..] == rest[1..];
      assert buf[end + d..] + rest == "\n" + rest[1..];
      SkipEnding("\n", rest[1..]);
    }
  }

  /** Taking the first record off a buffer takes its payload off the stream. */
  lemma TakeRecord(buf: string, rest: string)
    requires FirstBlank(buf, 0).Some?
    ensures var end := FirstBlank(buf, 0).value;
      && FirstBlank(buf + rest, 0) == Some(end)
      && Parse(buf + rest) == Emit(buf[..end]) + Parse(buf[end + BlankAt(buf, end)..] + rest)
  {
    hide Parse, FirstBlank, BlankAt, Emit;
    var end := FirstBlank(buf, 0).value;
    SameFirstBlank(buf, rest);
    ParseFrom(buf + rest, end);
    BehindRecord(buf, rest, end);
    assert (buf + rest)[..end] == buf[..end];
  }

  // ---- the stream ----

  method FindBlankLine(buf: string, start: nat) returns (r: Option<(nat, nat)>)
    ensures var first := FirstBlank(buf, if start < 3 then 0 else start - 3);
      r == if first.None? then None else Some((first.value, BlankAt(buf, first.value)))
  {
    var index := if start < 3 then 0 else start - 3;
    ghost var first := FirstBlank(buf, index);
    while index < |buf|
      invariant FirstBlank(buf, index) == first
    {
      var firstLen := LineEndingLen(buf, index);
      if firstLen > 0 {
        var secondLen := LineEndingLen(buf, index + firstLen);
        if secondLen > 0 {
          return Some((index, firstLen + secondLen));
        }
      }
      index := index + 1;
    }
    return None;
  }

  method DataOf(raw: string) returns (data: string)
    ensures data == Payload(raw)
  {
    var text := Unify(raw);
    data := "";
    while text != ""
      invariant Gather(text, data) == Payload(raw)
      decreases |text|
    {
      data := AddLine(data, text[..LineLen(text)]);
      text := AfterLine(text);
    }
  }

  datatype Error = SseRecordTooLarge | Transport

  function Flatten(chunks: seq<string>): string {
    if chunks == [] then "" else chunks[0] + Flatten(chunks[1..])
  }

  /** The reader with this buffer refuses a record when the stream comes in these chunks: it is too
      long when it is complete, or the buffer is when it is not. */
  predicate Refuses(buf: string, chunks: seq<string>)
    decreases |chunks|, |buf|
  {
    match FirstBlank(buf, 0)
    case Some(end) =>
      BlankIsTwo(buf, end);
      end > MAX_SSE_RECORD_BYTES || Refuses(buf[end + BlankAt(buf, end)..], chunks)
    case None =>
      chunks != [] &&
      var more := buf + chunks[0];
      (FirstBlank(more, 0).None? && |more| > MAX_SSE_RECORD_BYTES) || Refuses(more, chunks[1..])
  }

  /** The record in front runs past the limit: no blank line starts before it. */
  predicate Oversized(s: string) {
    |s| > MAX_SSE_RECORD_BYTES && forall i: nat | i < MAX_SSE_RECORD_BYTES - 1 :: BlankAt(s, i) == 0
  }

  lemma {:induction false} TailIsOversized(buf: string, rest: string)
    requires FirstBlank(buf, 0) == None && |buf| > MAX_SSE_RECORD_BYTES
    ensures Oversized(buf + rest)
  {
    BeforeFirstBlank(buf, 0);
    forall i: nat | i < MAX_SSE_RECORD_BYTES - 1 ensures BlankAt(buf + rest, i) == 0 {
      BlankAtMore(buf, rest, i);
    }
  }

  lemma {:induction false} RecordIsOversized(buf: string, rest: string)
    requires FirstBlank(buf, 0).Some? && FirstBlank(buf, 0).value > MAX_SSE_RECORD_BYTES
    ensures Oversized(buf + rest)
  {
    TakeRecord(buf, rest);
    BeforeFirstBlank(buf + rest, 0);
  }

  // ---- streams that never hit the limit ----

  /** Every stretch of a record's greatest length has a blank line start in it. */
  predicate Calm(s: string) {
    forall p: nat | p + MAX_SSE_RECORD_BYTES - 1 <= |s| :: BlankSoon(s, p)
  }

  predicate BlankSoon(s: string, p: nat) {
    exists i: nat | p <= i < p + MAX_SSE_RECORD_BYTES - 1 :: BlankAt(s, i) > 0
  }

  predicate IsSuffix(v: string, s: string) {
    |v| <= |s| && v == s[|s| - |v|..]
  }

  lemma SuffixOfSuffix(w: string, v: string, s: string)
    requires IsSuffix(w, v) && IsSuffix(v, s)
    ensures IsSuffix(w, s)
  {
  }

  lemma SuffixBehind(buf: string, n: nat, rest: string)
    requires n <= |buf|
    ensures IsSuffix(buf[n..] + rest, buf + rest)
  {
    CutBehind(buf[..n], buf[n..] + rest, 0);
    assert buf + rest == buf[..n] + (buf[n..] + rest);
  }

  lemma SuffixIsCalm(v: string, s: string)
    requires IsSuffix(v, s) && Calm(s)
    ensures Calm(v)
  {
    hide BlankAt;
    var n := |s| - |v|;
    assert s == s[..n] + v;
    forall p: nat | p + MAX_SSE_RECORD_BYTES - 1 <= |v|
      ensures BlankSoon(v, p)
    {
      assert BlankSoon(s, n + p);
      var i: nat :| n + p <= i < n + p + MAX_SSE_RECORD_BYTES - 1 && BlankAt(s, i) > 0;
      BlankAtShift(s[..n], v, i - n);
    }
  }

  lemma CalmIsNotOversized(s: string)
    requires Calm(s)
    ensures !Oversized(s)
  {
    hide BlankAt;
    if |s| > MAX_SSE_RECORD_BYTES {
      assert BlankSoon(s, 0);
    }
  }

  /** Every record of the uncut stream, and what follows the last, is five bytes below the limit. */
  predicate ShortRecords(s: string)
    decreases |s|
  {
    match FirstBlank(s, 0)
    case None => |s| <= MAX_SSE_RECORD_BYTES - 5
    case Some(end) => end <= MAX_SSE_RECORD_BYTES - 5 && ShortRecords(s[end + BlankAt(s, end)..])
  }

  lemma BlankIsShort(s: string, i: nat)
    ensures BlankAt(s, i) <= 4
  {
  }

  lemma {:induction false} ShortRecordsAreCalm(s: string)
    requires ShortRecords(s)
    ensures Calm(s)
    decreases |s|
  {
    hide BlankAt;
    if FirstBlank(s, 0).Some? {
      var end := FirstBlank(s, 0).value;
      var n := end + BlankAt(s, end);
      var rest := s[n..];
      BlankIsShort(s, end);
      ShortRecordsAreCalm(rest);
      assert s == s[..n] + rest;
      forall p: nat | p + MAX_SSE_RECORD_BYTES - 1 <= |s|
        ensures BlankSoon(s, p)
      {
        if n <= p {
          assert BlankSoon(rest, p - n);
          var i: nat :| p - n <= i < p - n + MAX_SSE_RECORD_BYTES - 1 && BlankAt(rest, i) > 0;
          BlankAtShift(s[..n], rest, i);
        } else if end < p {
          var next := FirstBlank(rest, 0).value;
          BlankAtShift(s[..n], rest, next);
        }
      }
    }
  }

  class EventStream {
    // The chunks the response body still has to deliver, and whether it then fails.
    var chunks: seq<string>
    const fails: bool
    var buf: string
    var scanFrom: nat

    constructor (chunks: seq<string>, fails: bool)
      ensures Valid() && Stream() == Flatten(chunks) && this.fails == fails
    {
      this.chunks, this.fails := chunks, fails;
      buf, scanFrom := "", 0;
    }

    /** Nothing before the point where the next scan resumes starts a blank line. */
    ghost predicate Valid()
      reads this
    {
      forall i: nat | i + 3 < scanFrom :: BlankAt(buf, i) == 0
    }

    ghost function Stream(): string
      reads this
    {
      buf + Flatten(chunks)
    }

    lemma ScanFindsFirst()
      requires Valid()
      ensures FirstBlank(buf, if scanFrom < 3 then 0 else scanFrom - 3) == FirstBlank(buf, 0)
    {
      BeforeFirstBlank(buf, if scanFrom < 3 then 0 else scanFrom - 3);
      FirstBlankIs(buf, 0, FirstBlank(buf, if scanFrom < 3 then 0 else scanFrom - 3));
    }

    /** Take a complete record off the buffer and return its data. */
    method TakeFirst(end: nat, delimiterLen: nat) returns (data: string)
      requires FirstBlank(buf, 0) == Some(end) && BlankAt(buf, end) == delimiterLen
      modifies this`buf, this`scanFrom
      ensures Valid() && |buf| < |old(buf)|
      ensures Parse(old(Stream())) == (if data == "" then [] else [data]) + Parse(Stream())
      ensures IsSuffix(Stream(), old(Stream())) && chunks == old(chunks)
      ensures end <= MAX_SSE_RECORD_BYTES ==> (Refuses(old(buf), chunks) <==> Refuses(buf, chunks))
    {
      hide Parse, FirstBlank, BlankAt, Payload;
      TakeRecord(buf, Flatten(chunks));
      SuffixBehind(buf, end + delimiterLen, Flatten(chunks));
      var raw := buf[..end];
      buf := buf[end + delimiterLen..];
      scanFrom := 0;
      data := DataOf(raw);
    }

    /** Append the next chunk; false when the unfinished record has grown too large. */
    method Receive() returns (ok: bool)
      requires chunks != [] && FirstBlank(buf, 0) == None
      modifies this`buf, this`scanFrom, this`chunks
      ensures Valid() && Stream() == old(Stream()) && chunks == old(chunks)[1..]
      ensures !ok ==> Oversized(Stream())
      ensures Refuses(old(buf), old(chunks)) <==> !ok || Refuses(buf, chunks)
    {
      hide FirstBlank, BlankAt;
      BeforeFirstBlank(buf, 0);
      ghost var before := buf;
      scanFrom := if |buf| < 3 then 0 else |buf| - 3;
      forall i: nat | i + 3 < scanFrom ensures BlankAt(before + chunks[0], i) == 0 {
        BlankAtMore(before, chunks[0], i);
      }
      assert before + Flatten(chunks) == before + chunks[0] + Flatten(chunks[1..]);
      buf := buf + chunks[0];
      chunks := chunks[1..];
      var found := FindBlankLine(buf, scanFrom);
      ScanFindsFirst();
      ok := found.Some? || |buf| <= MAX_SSE_RECORD_BYTES;
      if !ok {
        TailIsOversized(buf, Flatten(chunks));
      }
    }

    /** The next payload. An error loses no payload still in the stream. */
    method NextEvent() returns (r: Result<Option<string>, Error>)
      requires Valid()
      modifies this
      ensures Valid() && IsSuffix(Stream(), old(Stream()))
      ensures Parse(old(Stream()))
           == if r.Ok? && r.value.Some? then [r.value.value] + Parse(Stream()) else Parse(Stream())
      ensures r == Ok(None) ==> Parse(Stream()) == [] && chunks == [] && !fails
      ensures r == Err(Transport) ==> Parse(Stream()) == [] && chunks == [] && fails
      ensures r == Err(SseRecordTooLarge) ==> Oversized(Stream())
      ensures Refuses(old(buf), old(chunks))
        <==> r == Err(SseRecordTooLarge) || (r.Ok? && r.value.Some? && Refuses(buf, chunks))
    {
      hide FirstBlank, BlankAt, Oversized, Parse;
      while true
        invariant Valid() && Parse(Stream()) == Parse(old(Stream())) && IsSuffix(Stream(), old(Stream()))
        invariant Refuses(buf, chunks) <==> Refuses(old(buf), old(chunks))
        decreases |chunks|, |buf|
      {
        var found := FindBlankLine(buf, scanFrom);
        ScanFindsFirst();
        if found.Some? {
          var (end, delimiterLen) := found.value;
          if end > MAX_SSE_RECORD_BYTES {
            RecordIsOversized(buf, Flatten(chunks));
            return Err(SseRecordTooLarge);
          }
          ghost var before := Stream();
          var data := TakeFirst(end, delimiterLen);
          SuffixOfSuffix(Stream(), before, old(Stream()));
          if data != "" {
            return Ok(Some(data));
          }
        } else if chunks != [] {
          var ok := Receive();
          if !ok {
            return Err(SseRecordTooLarge);
          }
        } else {
          assert Stream() == buf;
          ParseNothing(buf);
          return if fails then Err(Transport) else Ok(None);
        }
      }
    }

    /** The push loop: events until the stream closes or fails. The payloads depend on
        the bytes alone, not on how they were cut into chunks. */
    method Collect() returns (payloads: seq<string>, error: Option<Error>)
      requires Valid()
      modifies this
      ensures Parse(old(Stream())) == payloads + Parse(Stream())
      ensures error != Some(SseRecordTooLarge) ==> payloads == Parse(old(Stream()))
      ensures error == Some(SseRecordTooLarge) <==> Refuses(old(buf), old(chunks))
      ensures |old(Stream())| <= MAX_SSE_RECORD_BYTES ==> error != Some(SseRecordTooLarge)
      ensures ShortRecords(old(Stream())) || Calm(old(Stream())) ==> error != Some(SseRecordTooLarge)
    {
      hide Parse, Calm, ShortRecords, Refuses;
      if ShortRecords(Stream()) {
        ShortRecordsAreCalm(Stream());
      }
      payloads, error := [], None;
      while true
        invariant Valid() && Parse(old(Stream())) == payloads + Parse(Stream())
        invariant IsSuffix(Stream(), old(Stream()))
        invariant Refuses(buf, chunks) <==> Refuses(old(buf), old(chunks))
        decreases |Parse(Stream())|
      {
        ghost var before := Stream();
        var r := NextEvent();
        SuffixOfSuffix(Stream(), before, old(Stream()));
        if Calm(old(Stream())) {
          SuffixIsCalm(Stream(), old(Stream()));
          CalmIsNotOversized(Stream());
        }
        if r.Err? {
          assert r.error.SseRecordTooLarge? || r.error.Transport?;
          assert payloads + [] == payloads;
          return payloads, Some(r.error);
        }
        if r.value.None? {
          assert r == Ok(None);
          assert payloads + [] == payloads;
          return payloads, None;
        }
        Associate(payloads, [r.value.value], Parse(Stream()));
        payloads := payloads + [r.value.value];
      }
    }
  }
}
