/** Which events sent as one data line are read back. */
module SseEvents {
  import opened Common
  import opened Text
  import opened Sse

  predicate IsEol(eol: string) {
    eol == "\n" || eol == "\r\n" || eol == "\r"
  }

  predicate OneLine(line: string) {
    forall i | 0 <= i < |line| :: line[i] != '\r' && line[i] != '\n'
  }

  /** What can be sent as one data line. */
  predicate Sendable(payload: string) {
    payload != "" && !IsWhite(payload[0], Unicode) && OneLine(payload)
  }

  function Sent(payload: string, eol: string): string {
    "data: " + payload + (eol + eol)
  }

  // ---- what stands behind a blank line is read on its own ----

  /** Whatever is left of a terminator in front of a stream is mute. */
  lemma {:induction false} EndingIsMute(eol: string, rest: string)
    requires IsEol(eol)
    ensures Parse(eol + rest) == Parse(rest) && Parse(eol) == [] && Parse("") == []
  {
    hide Parse;
    ParseNothing("");
    ParseNothing(eol);
    if eol == "\r" && rest != "" && rest[0] == '\n' {
      assert eol + rest == "\r\n" + rest[1..] && rest == "\n" + rest[1..];
      SkipEnding("\r\n", rest[1..]);
      SkipEnding("\n", rest[1..]);
    } else {
      SkipEnding(eol, rest);
    }
  }

  lemma BlankAtEnd(h: string, eol: string)
    requires IsEol(eol)
    ensures var buf := h + (eol + eol); var first := FirstBlank(buf, 0);
      && first.Some? && first.value <= |h|
      && var n := first.value + BlankAt(buf, first.value);
         n <= |h| || buf[n..] == "" || buf[n..] == eol
  {
    var buf := h + (eol + eol);
    BlankAtShift(h, eol + eol, 0);
    BeforeFirstBlank(buf, 0);
    var end := FirstBlank(buf, 0).value;
    BlankAtShift(h, eol + eol, |eol|);
    if end < |h| {
      BlankAcross(h, eol, end);
    }
  }

  lemma BlankAcross(h: string, eol: string, i: nat)
    requires IsEol(eol) && i < |h| && BlankAt(h + (eol + eol), i) > 0
    ensures var n := i + BlankAt(h + (eol + eol), i);
      n <= |h| || n == |h| + |eol| || n == |h| + |eol + eol|
  {
  }

  lemma {:induction false} ParseSplits(h: string, eol: string, rest: string)
    requires IsEol(eol)
    ensures Parse(h + (eol + eol) + rest) == Parse(h + (eol + eol)) + Parse(rest)
    decreases |h|
  {
    hide Parse, FirstBlank, BlankAt, Emit;
    var buf := h + (eol + eol);
    BlankAtEnd(h, eol);
    var end := FirstBlank(buf, 0).value;
    var n := end + BlankAt(buf, end);
    TakeRecord(buf, rest);
    TakeRecord(buf, "");
    assert buf + "" == buf && buf[n..] + "" == buf[n..];
    BlankIsTwo(buf, end);
    if n <= |h| {
      CutBehind(h, eol + eol, 0);
      assert buf[n..] == h[n..] + (eol + eol);
      ParseSplits(h[n..], eol, rest);
    } else {
      EndingIsMute(eol, rest);
      assert "" + rest == rest;
    }
    Associate(Emit(buf[..end]), Parse(buf[n..]), Parse(rest));
  }

  // ---- what a payload weighs ----

  function Breaks(s: string): nat {
    if s == "" then 0 else Breaks(s[..|s| - 1]) + if s[|s| - 1] == '\n' then 1 else 0
  }

  /** The least number of bytes a payload takes up: every line of it comes behind "data:". */
  function Weight(data: string): nat {
    if data == "" then 0 else |data| + 5 * (1 + Breaks(data))
  }

  lemma {:induction false} BreaksAppend(a: string, b: string)
    ensures Breaks(a + b) == Breaks(a) + Breaks(b)
    decreases |b|
  {
    if b == "" {
      assert a + b == a;
    } else {
      assert (a + b)[..|a + b| - 1] == a + b[..|b| - 1];
      BreaksAppend(a, b[..|b| - 1]);
    }
  }

  lemma {:induction false} NoBreaks(s: string)
    ensures Breaks(s) == 0 <==> '\n' !in s
  {
    if s != "" {
      NoBreaks(s[..|s| - 1]);
      assert s == s[..|s| - 1] + [s[|s| - 1]];
    }
  }

  lemma AddLineWeighs(data: string, line: string)
    requires IsLine(line)
    ensures Weight(AddLine(data, line)) <= Weight(data) + |line| + if data == "" then 0 else 1
  {
    if HasAt(line, "data:", 0) {
      var t := TrimStart(line[5..], Unicode);
      TrimStartFacts(line[5..], Unicode);
      NoBreaks(t);
      BreaksAppend(data, "\n");
      BreaksAppend(data + "\n", t);
      assert Breaks("\n") == 1 by {
        assert "\n"[..0] == "";
      }
      assert "" + t == t;
    }
  }

  lemma {:induction false} GatherWeighs(text: string, data: string)
    ensures Weight(Gather(text, data)) <= Weight(data) + |text| + if data == "" then 0 else 1
    ensures '\r' !in text && '\r' !in data ==> '\r' !in Gather(text, data)
    decreases |text|
  {
    hide AddLine, Weight;
    if text != "" {
      var n := LineLen(text);
      LineLenStops(text);
      AddLineWeighs(data, text[..n]);
      AddLineClean(data, text[..n]);
      GatherWeighs(AfterLine(text), AddLine(data, text[..n]));
      NothingGathered(AddLine(data, text[..n]));
    }
  }

  lemma {:induction false} NothingGathered(data: string)
    ensures Gather("", data) == data
  {
  }

  lemma AddLineClean(data: string, line: string)
    ensures '\r' !in line && '\r' !in data ==> '\r' !in AddLine(data, line)
  {
    if HasAt(line, "data:", 0) {
      TrimStartFacts(line[5..], Unicode);
    }
  }

  lemma {:induction false} UnifyIsShort(raw: string)
    ensures |Unify(raw)| <= |raw| && '\r' !in Unify(raw)
    decreases |raw|
  {
    if raw != "" {
      UnifyIsShort(raw[1..]);
      if LineEndingLen(raw, 0) > 0 {
        UnifyIsShort(raw[LineEndingLen(raw, 0)..]);
      }
    }
  }

  function WeightAll(payloads: seq<string>): nat {
    if payloads == [] then 0 else Weight(payloads[0]) + WeightAll(payloads[1..])
  }

  /** No stream of payloads weighs more than its bytes without a blank line. */
  lemma {:induction false} ParseWeighs(s: string)
    ensures Parse(s) != [] ==> WeightAll(Parse(s)) + 2 <= |s|
    ensures forall p | p in Parse(s) :: '\r' !in p
    decreases |s|
  {
    hide FirstBlank, BlankAt, Payload, Weight;
    if FirstBlank(s, 0).Some? {
      var end := FirstBlank(s, 0).value;
      BlankIsTwo(s, end);
      var rest := s[end + BlankAt(s, end)..];
      ParseWeighs(rest);
      PayloadWeighs(s[..end]);
      ParseFrom(s, end);
      if Payload(s[..end]) == "" {
        assert [] + Parse(rest) == Parse(rest);
      } else {
        WeightOfMore(Payload(s[..end]), Parse(rest));
      }
    }
  }

  lemma {:induction false} WeightOfMore(payload: string, more: seq<string>)
    ensures WeightAll([payload] + more) == Weight(payload) + WeightAll(more)
    ensures WeightAll([]) == 0
  {
    assert ([payload] + more)[1..] == more;
  }

  lemma PayloadWeighs(raw: string)
    ensures Weight(Payload(raw)) <= |raw| && '\r' !in Payload(raw)
  {
    UnifyIsShort(raw);
    GatherWeighs(Unify(raw), "");
  }

  // ---- one data line ----

  lemma DataLinePayload(payload: string)
    requires OneLine(payload)
    ensures Emit("data: " + payload) == [payload] <==> Sendable(payload)
  {
    hide AddLine, Unify, LineLen;
    var line := "data: " + payload;
    DataLineIsOne(payload);
    NoEndings(line);
    AddsData(payload);
    assert line[..|line|] == line;
    assert Gather(line, "") == Gather("", TrimStart(payload, Unicode)) == TrimStart(payload, Unicode);
    TrimStartFacts(payload, Unicode);
  }

  lemma DataLineIsOne(payload: string)
    requires OneLine(payload)
    ensures OneLine("data: " + payload)
  {
    assert OneLine("data: ");
  }

  lemma {:induction false} AddsData(payload: string)
    ensures AddLine("", "data: " + payload) == TrimStart(payload, Unicode)
  {
    var line := "data: " + payload;
    assert line[0..5] == "data:" && line[5..] == " " + payload;
    assert (" " + payload)[1..] == payload;
    assert TrimStart(" " + payload, Unicode) == TrimStart(payload, Unicode);
    assert "" + TrimStart(payload, Unicode) == TrimStart(payload, Unicode);
  }

  lemma FirstBlankAfterLine(line: string, eol: string)
    requires IsEol(eol) && OneLine(line)
    ensures var buf := line + (eol + eol);
      FirstBlank(buf, 0) == Some(|line|) && BlankAt(buf, |line|) == |eol + eol|
  {
    var buf := line + (eol + eol);
    forall i: nat | i < |line| ensures BlankAt(buf, i) == 0 {
      assert buf[i] == line[i];
    }
    BlankAtShift(line, eol + eol, 0);
    assert BlankAt(eol + eol, 0) == |eol + eol|;
    FirstBlankIs(buf, 0, Some(|line|));
  }

  lemma {:induction false} NoEndings(line: string)
    requires OneLine(line)
    ensures Unify(line) == line && LineLen(line) == |line|
  {
    if line != "" {
      NoEndings(line[1..]);
    }
  }

  /** One data line is read back without its leading white space. */
  lemma SentIsRead(payload: string, eol: string)
    requires IsEol(eol) && OneLine(payload)
    ensures Parse(Sent(payload, eol)) == Emit("data: " + payload)
  {
    hide Parse, Emit, FirstBlank, BlankAt;
    var line := "data: " + payload;
    var buf := line + (eol + eol);
    DataLineIsOne(payload);
    FirstBlankAfterLine(line, eol);
    TakeRecord(buf, "");
    assert buf[..|line|] == line && buf[|buf|..] + "" == "" && buf + "" == buf;
    ParseNothing("");
  }

  /** An event sent as one data line is read back, in front of any stream and whichever terminator
      ends its lines, exactly when its payload has text, starts with no white space and is one line. */
  lemma {:induction false} EventRoundTripIff(payload: string, eol: string, rest: string)
    requires IsEol(eol)
    ensures Parse(Sent(payload, eol) + rest) == [payload] + Parse(rest) <==> Sendable(payload)
  {
    hide Parse, Emit, Weight, Breaks;
    ParseSplits("data: " + payload, eol, rest);
    ParseWeighs(Sent(payload, eol));
    if Parse(Sent(payload, eol)) == [payload] {
      WeightOfOne(payload);
      NoBreaks(payload);
      assert payload in Parse(Sent(payload, eol));
      assert OneLine(payload);
    }
    if OneLine(payload) {
      SentIsRead(payload, eol);
      DataLinePayload(payload);
    }
    SameTail(Parse(Sent(payload, eol)), [payload], Parse(rest));
  }

  lemma {:induction false} WeightOfOne(payload: string)
    ensures WeightAll([payload]) == Weight(payload)
    ensures payload != "" ==> Weight(payload) == |payload| + 5 * (1 + Breaks(payload))
    ensures Breaks("") == 0
  {
    assert [payload][1..] == [];
  }

  lemma SameTail<T>(a: seq<T>, b: seq<T>, tail: seq<T>)
    ensures a + tail == b + tail <==> a == b
  {
    if a + tail == b + tail {
      assert |a| == |b|;
      assert (a + tail)[..|a|] == a && (b + tail)[..|b|] == b;
    }
  }
}
