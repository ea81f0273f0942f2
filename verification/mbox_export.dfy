/** Exporting messages to an mbox file, and what importing the file gives back. */
module MboxExport {
  import opened Common
  import opened Text
  import opened Calendar
  import opened Mbox
  import opened MboxStatus

  const DAYS := ["Thu", "Fri", "Sat", "Sun", "Mon", "Tue", "Wed"]
  const MONTHS := ["Jan", "Feb", "Mar", "Apr", "May", "Jun", "Jul", "Aug", "Sep", "Oct", "Nov", "Dec"]
  const EPOCH_LINE := "Thu Jan  1 00:00:00 1970"

  function Pad(n: int, fill: char): string {
    if 0 <= n < 10 then [fill] + Decimal(n) else Decimal(n)
  }

  lemma MonthIsInTable(secs: nat)
    ensures 1 <= CivilFromUnix(secs).month <= 12
  {
    CastKeepsDate(secs);
    DaysRoundTrip(secs / 86400 + 719468);
  }

  /** The date of a separator line, in the style of asctime. */
  function FromLineDate(ts: int): string {
    var secs: nat := if ts < 0 then 0 else ts;
    var c := CivilFromUnix(secs);
    MonthIsInTable(secs);
    DAYS[secs / 86400 % 7] + " " + MONTHS[c.month - 1] + " " + Pad(c.day, ' ') + " "
    + Pad(c.hour, '0') + ":" + Pad(c.minute, '0') + ":" + Pad(c.second, '0') + " " + Decimal(c.year)
  }

  // A stored message: `body` is None when it has no body file or the file cannot be read.
  datatype Stored = Stored(fromAddr: Option<string>, dateUnix: Option<int>, flags: string, body: Option<string>)

  function Sender(m: Stored): string {
    if m.fromAddr.Some? then m.fromAddr.value else "MAILER-DAEMON"
  }

  function SeparatorLine(m: Stored): string {
    "From " + Sender(m) + " " + (if m.dateUnix.Some? then FromLineDate(m.dateUnix.value) else EPOCH_LINE)
  }

  /** What the file holds of a message, before quoting. */
  function Enriched(m: Stored): string
    requires m.body.Some?
  {
    Injected(m.body.value, m.flags)
  }

  predicate AllWithBody(ms: seq<Stored>) {
    forall m | m in ms :: m.body.Some?
  }

  function MboxText(ms: seq<Stored>): string
    requires AllWithBody(ms)
  {
    if ms == [] then ""
    else MboxText(ms[..|ms| - 1]) + (SeparatorLine(ms[|ms| - 1]) + "\n" + (Quoted(Enriched(ms[|ms| - 1])) + "\n"))
  }

  predicate Wanted(m: Stored, since: Option<int>) {
    m.body.Some? && (since.Some? ==> since.value <= (if m.dateUnix.Some? then m.dateUnix.value else 0))
  }

  /** The messages to export: recent enough, readable, and no more than the limit. */
  function Chosen(rows: seq<Stored>, since: Option<int>, limit: Option<nat>): (ms: seq<Stored>)
    ensures AllWithBody(ms) && |ms| <= |rows|
  {
    if rows == [] then []
    else
      var ms := Chosen(rows[..|rows| - 1], since, limit);
      if Wanted(rows[|rows| - 1], since) && (limit.Some? ==> |ms| < limit.value)
      then ms + [rows[|rows| - 1]] else ms
  }

  lemma {:induction false} FullChoiceStays(rows: seq<Stored>, n: nat, since: Option<int>, limit: Option<nat>)
    requires n <= |rows| && limit.Some? && |Chosen(rows[..n], since, limit)| >= limit.value
    ensures Chosen(rows, since, limit) == Chosen(rows[..n], since, limit)
  {
    if n < |rows| {
      assert rows[..|rows| - 1][..n] == rows[..n];
      FullChoiceStays(rows[..|rows| - 1], n, since, limit);
    } else {
      assert rows[..n] == rows;
    }
  }

  // ---- what is exported ----

  /** Without a limit: the messages with a body that are no older than the date, one without a date
      counting as from the epoch; in order. */
  lemma {:induction false} ChosenIs(before: seq<Stored>, m: Stored, after: seq<Stored>, since: Option<int>)
    ensures Chosen(before + [m] + after, since, None)
      == Chosen(before, since, None)
         + (if m.body.Some? && (since.None? || (m.dateUnix.Some? && m.dateUnix.value >= since.value)
                                || (m.dateUnix.None? && 0 >= since.value)) then [m] else [])
         + Chosen(after, since, None)
  {
    ChosenAppend(before + [m], after, since);
    ChosenAppend(before, [m], since);
    assert [m][..0] == [];
  }

  lemma {:induction false} ChosenAppend(a: seq<Stored>, b: seq<Stored>, since: Option<int>)
    ensures Chosen(a + b, since, None) == Chosen(a, since, None) + Chosen(b, since, None)
    decreases |b|
  {
    if b == [] {
      assert a + b == a;
    } else {
      assert (a + b)[..|a + b| - 1] == a + b[..|b| - 1];
      ChosenAppend(a, b[..|b| - 1], since);
    }
  }

  /** A limit keeps the first ones. */
  lemma {:induction false} LimitCutsOff(rows: seq<Stored>, since: Option<int>, limit: nat)
    ensures var all := Chosen(rows, since, None);
      Chosen(rows, since, Some(limit)) == if |all| <= limit then all else all[..limit]
  {
    if rows != [] {
      LimitCutsOff(rows[..|rows| - 1], since, limit);
    }
  }

  /** A number of at least two places. */
  function Padded(n: int, fill: string): string {
    (if n < 10 then fill else "") + Decimal(n)
  }

  /** The separator's date is that of the calendar: on every valid date from 1970 on whose year fits
      32 bits, the weekday counted from a Thursday, the month, and the day padded with a blank. */
  lemma {:induction false} SeparatorDateIs(y: int, m: int, d: int, h: int, mi: int, s: int)
    requires IsDate(y, m, d) && 0 <= h < 24 && 0 <= mi < 60 && 0 <= s < 60
    requires CivilToUnix(y, m, d, h, mi, s) >= 0 && y < U32
    ensures 0 <= DayNumber(y, m, d) && 1 <= m <= 12
    ensures FromLineDate(CivilToUnix(y, m, d, h, mi, s))
      == DAYS[DayNumber(y, m, d) % 7] + " " + MONTHS[m - 1] + " " + Padded(d, " ") + " " + Padded(h, "0") + ":"
         + Padded(mi, "0") + ":" + Padded(s, "0") + " " + Decimal(y)
  {
    hide Decimal, Pad, Padded, DayNumber, CivilFromUnix, CivilToUnix, IsDate, FromLineDate, DAYS, MONTHS;
    var ts := CivilToUnix(y, m, d, h, mi, s);
    TablesAreLong();
    MonthFits(y, m, d);
    CivilRoundTrip(y, m, d, h, mi, s);
    ForwardCountsSeconds(y, m, d, h, mi, s);
    DaysOfSeconds(DayNumber(y, m, d), h, mi, s);
    LineDateIs(ts, Civil(y, m, d, h, mi, s));
    PadIs(d, ' ');
    PadIs(h, '0');
    PadIs(mi, '0');
    PadIs(s, '0');
  }

  lemma TablesAreLong()
    ensures |DAYS| == 7 && |MONTHS| == 12
  {
  }

  lemma LineDateIs(ts: nat, c: Civil)
    requires c == CivilFromUnix(ts) && 1 <= c.month <= 12
    ensures FromLineDate(ts) == DAYS[ts / 86400 % 7] + " " + MONTHS[c.month - 1] + " " + Pad(c.day, ' ') + " "
      + Pad(c.hour, '0') + ":" + Pad(c.minute, '0') + ":" + Pad(c.second, '0') + " " + Decimal(c.year)
  {
    hide Decimal, Pad, CivilFromUnix;
  }

  lemma MonthFits(y: int, m: int, d: int)
    requires IsDate(y, m, d)
    ensures 1 <= m <= 12 && d >= 1
  {
  }

  lemma DaysOfSeconds(days: int, h: int, mi: int, s: int)
    requires 0 <= h < 24 && 0 <= mi < 60 && 0 <= s < 60 && days * 86400 + h * 3600 + mi * 60 + s >= 0
    ensures (days * 86400 + h * 3600 + mi * 60 + s) / 86400 == days >= 0
  {
    var r := h * 3600 + mi * 60 + s;
    assert 0 <= r < 86400;
  }

  lemma PadIs(n: int, fill: char)
    requires n >= 0
    ensures Pad(n, fill) == Padded(n, [fill])
  {
    if n >= 10 {
      assert "" + Decimal(n) == Decimal(n);
    }
  }

  lemma {:induction false} ChosenFromNothing(rows: seq<Stored>, since: Option<int>, limit: Option<nat>)
    ensures Chosen(rows[..0], since, limit) == [] && MboxText([]) == ""
  {
  }

  lemma {:induction false} ChosenStep(rows: seq<Stored>, i: nat, since: Option<int>, limit: Option<nat>)
    requires i < |rows|
    ensures var ms := Chosen(rows[..i], since, limit);
      Chosen(rows[..i + 1], since, limit)
      == if Wanted(rows[i], since) && (limit.Some? ==> |ms| < limit.value) then ms + [rows[i]] else ms
  {
    assert rows[..i + 1][..i] == rows[..i];
  }

  lemma {:induction false} MboxTextStep(ms: seq<Stored>, m: Stored)
    requires AllWithBody(ms) && m.body.Some?
    ensures AllWithBody(ms + [m])
    ensures MboxText(ms + [m]) == MboxText(ms) + (SeparatorLine(m) + "\n" + (Quoted(Enriched(m)) + "\n"))
  {
    assert (ms + [m])[..|ms|] == ms;
  }

  method Export(rows: seq<Stored>, since: Option<int>, limit: Option<nat>) returns (out: string, count: nat)
    ensures out == MboxText(Chosen(rows, since, limit)) && count == |Chosen(rows, since, limit)|
  {
    hide Chosen, MboxText, Quoted, Injected, SeparatorLine;
    ChosenFromNothing(rows, since, limit);
    out, count := "", 0;
    for i := 0 to |rows|
      invariant out == MboxText(Chosen(rows[..i], since, limit)) && count == |Chosen(rows[..i], since, limit)|
    {
      var m := rows[i];
      ChosenStep(rows, i, since, limit);
      if since.Some? && (if m.dateUnix.Some? then m.dateUnix.value else 0) < since.value {
        continue;
      }
      if limit.Some? && count >= limit.value {
        FullChoiceStays(rows, i, since, limit);
        return;
      }
      if m.body.None? {
        continue;
      }
      MboxTextStep(Chosen(rows[..i], since, limit), m);
      var enriched := InjectStatusHeaders(m.body.value, m.flags);
      var quoted := ApplyFromQuoting(enriched);
      out := out + (SeparatorLine(m) + "\n" + (quoted + "\n"));
      count := count + 1;
    }
    assert rows[..|rows|] == rows;
  }

  // ---- the round trip ----

  lemma {:induction false} DecimalIsLine(n: int)
    ensures IsLine(Decimal(n))
    decreases n < 0, if n < 0 then -n else n
  {
    if n < 0 {
      DecimalIsLine(-n);
    } else if n >= 10 {
      DecimalIsLine(n / 10);
    }
  }

  lemma TablesAreLines()
    ensures AreLines(DAYS) && AreLines(MONTHS) && IsLine(EPOCH_LINE)
  {
  }

  lemma PadIsLine(n: int, fill: char)
    requires fill != '\n'
    ensures IsLine(Pad(n, fill))
  {
    DecimalIsLine(n);
  }

  lemma FromLineDateIsLine(ts: int)
    ensures IsLine(FromLineDate(ts))
  {
    hide Pad, Decimal, CivilFromUnix;
    var secs: nat := if ts < 0 then 0 else ts;
    var c := CivilFromUnix(secs);
    TablesAreLines();
    MonthIsInTable(secs);
    assert DAYS[secs / 86400 % 7] in DAYS && MONTHS[c.month - 1] in MONTHS;
    PadIsLine(c.day, ' ');
    PadIsLine(c.hour, '0');
    PadIsLine(c.minute, '0');
    PadIsLine(c.second, '0');
    DecimalIsLine(c.year);
  }

  lemma SeparatorIsLine(m: Stored)
    requires IsLine(Sender(m))
    ensures IsLine(SeparatorLine(m)) && HasAt(SeparatorLine(m), FROM, 0)
  {
    hide FromLineDate;
    TablesAreLines();
    if m.dateUnix.Some? {
      FromLineDateIsLine(m.dateUnix.value);
    }
    assert SeparatorLine(m)[0..5] == FROM;
  }

  predicate AreSeparators(ls: seq<string>) {
    forall l | l in ls :: HasAt(l, FROM, 0)
  }

  /** Every line that a sender with line breaks makes of the separator starts like one. */
  predicate Separates(m: Stored) {
    AreSeparators(Lines(SeparatorLine(m)))
  }

  lemma PlainSenderSeparates(m: Stored)
    requires IsLine(Sender(m))
    ensures Separates(m)
  {
    SeparatorIsLine(m);
    LinesOfLine(SeparatorLine(m));
  }

  /** A sender broken into two lines adds its second line to the message. */
  lemma BrokenSenderStrays(m: Stored)
    requires m.fromAddr == Some("a\nb")
    ensures !Separates(m)
  {
    hide FromLineDate;
    var date := if m.dateUnix.Some? then FromLineDate(m.dateUnix.value) else EPOCH_LINE;
    assert SeparatorLine(m) == "From a" + "\n" + ("b " + date);
    LinesCons("From a", "b " + date);
    var second := Lines("b " + date)[0];
    assert second in Lines(SeparatorLine(m)) && second[0] == 'b' && FROM[0] == 'F';
  }

  lemma SeparatorStarts(m: Stored)
    ensures HasAt(SeparatorLine(m), FROM, 0)
  {
    hide FromLineDate;
    assert SeparatorLine(m)[0..5] == FROM;
  }

  lemma {:induction false} LinesJoinCurrent(ls: seq<string>, rest: seq<string>, current: string)
    requires rest != [] && forall l | l in ls :: !HasAt(l, FROM, 0)
    ensures SplitLines(ls + rest, current) == SplitLines(rest, current + AllLines(ls))
    decreases |ls|
  {
    if ls == [] {
      assert ls + rest == rest && current + "" == current;
    } else {
      assert (ls + rest)[1..] == ls[1..] + rest;
      LinesJoinCurrent(ls[1..], rest, current + ls[0] + "\n");
      assert current + ls[0] + "\n" + AllLines(ls[1..]) == current + AllLines(ls);
    }
  }

  lemma {:induction false} StripAllSnoc(ls: seq<string>, l: string)
    ensures StripAll(ls + [l]) == StripAll(ls) + [StripLine(l)]
  {
    if ls != [] {
      assert (ls + [l])[1..] == ls[1..] + [l];
      StripAllSnoc(ls[1..], l);
    }
  }

  /** A quoted message and the LF written after it strip to the message and that LF. */
  lemma StripQuotedBody(raw: string)
    ensures Stripped(Quoted(raw) + "\n") == raw + "\n"
  {
    var ls := Lines(Quoted(raw));
    StripUndoesQuote(raw);
    LinesAppend(Quoted(raw), "");
    assert Quoted(raw) + "\n" + "" == Quoted(raw) + "\n";
    assert Lines("") == [""] && StripLine("") == "";
    StripAllSnoc(ls, "");
    UnlinesSnoc(StripAll(ls), "");
    assert raw + "\n" + "" == raw + "\n";
  }

  /** A text that ends a message: the file's end, or a separator. */
  predicate StartsAfresh(text: string) {
    text == "" || HasAt(text, FROM, 0)
  }

  lemma {:induction false} SplitStartingAfresh(text: string, current: string)
    requires StartsAfresh(text)
    ensures SplitLines(Lines(text), current) == Flush(current) + Split(text)
  {
    if text == "" {
      RemainingAtEnd(current, true);
      RemainingAtEnd("", true);
    } else {
      SplitFromStart(text, current);
      SplitFromStart(text, "");
    }
  }

  lemma {:induction false} SeparatorsPass(ls: seq<string>, rest: seq<string>)
    requires AreSeparators(ls) && rest != []
    ensures SplitLines(ls + rest, "") == SplitLines(rest, "")
  {
    if ls == [] {
      assert ls + rest == rest;
    } else {
      assert (ls + rest)[1..] == ls[1..] + rest;
      SeparatorsPass(ls[1..], rest);
      assert Flush("") + SplitLines(ls[1..] + rest, "") == SplitLines(ls[1..] + rest, "");
    }
  }

  /** One exported message in front of a file is one message in front of its messages. */
  lemma {:induction false} SplitOneMore(separator: string, raw: string, rest: string)
    requires AreSeparators(Lines(separator)) && StartsAfresh(rest)
    ensures Split(separator + "\n" + (Quoted(raw) + "\n" + rest)) == [raw + "\n"] + Split(rest)
  {
    var body := Quoted(raw);
    var ls := Lines(body);
    LinesAppend(separator, body + "\n" + rest);
    LinesAppend(body, rest);
    StripUndoesQuote(raw);
    SeparatorsPass(Lines(separator), ls + Lines(rest));
    LinesJoinCurrent(ls, Lines(rest), "");
    AllLinesIsUnlines(ls);
    UnlinesOfLines(body);
    assert "" + AllLines(ls) == body + "\n";
    SplitStartingAfresh(rest, body + "\n");
    StripQuotedBody(raw);
  }

  function Reimported(ms: seq<Stored>): seq<string>
    requires AllWithBody(ms)
  {
    if ms == [] then [] else Reimported(ms[..|ms| - 1]) + [Enriched(ms[|ms| - 1]) + "\n"]
  }

  lemma SeparatorAhead(separator: string, tail: string)
    requires HasAt(separator, FROM, 0)
    ensures StartsAfresh(separator + "\n" + tail)
  {
    assert (separator + "\n" + tail)[0..5] == separator[0..5];
  }

  lemma RestOfFile(before: string, separator: string, body: string, rest: string)
    ensures before + (separator + "\n" + (body + "\n")) + rest == before + (separator + "\n" + (body + "\n" + rest))
  {
  }

  lemma {:induction false} SplitExportWith(ms: seq<Stored>, rest: string)
    requires AllWithBody(ms) && (forall m | m in ms :: Separates(m)) && StartsAfresh(rest)
    ensures Split(MboxText(ms) + rest) == Reimported(ms) + Split(rest)
  {
    hide Split, Quoted, Enriched, SeparatorLine, HasAt, StartsAfresh;
    if ms == [] {
      assert "" + rest == rest && [] + Split(rest) == Split(rest);
    } else {
      var fewer, m := ms[..|ms| - 1], ms[|ms| - 1];
      var separator, body := SeparatorLine(m), Quoted(Enriched(m));
      SeparatorStarts(m);
      assert m in ms && Separates(m);
      var one := separator + "\n" + (body + "\n" + rest);
      SeparatorAhead(separator, body + "\n" + rest);
      SplitExportWith(fewer, one);
      SplitOneMore(separator, Enriched(m), rest);
      RestOfFile(MboxText(fewer), separator, body, rest);
      Associate(Reimported(fewer), [Enriched(m) + "\n"], Split(rest));
    }
  }

  // ---- a separator broken into other lines ----

  /** What the lines of a file that start no message leave in the messages. */
  function Left(ls: seq<string>): nat {
    if ls == [] then 0
    else Left(ls[..|ls| - 1]) + if HasAt(ls[|ls| - 1], FROM, 0) then 0 else |StripLine(ls[|ls| - 1])| + 1
  }

  function Sizes(messages: seq<string>): nat {
    if messages == [] then 0 else Sizes(messages[..|messages| - 1]) + |messages[|messages| - 1]|
  }

  lemma {:induction false} LeftAppend(a: seq<string>, b: seq<string>)
    ensures Left(a + b) == Left(a) + Left(b)
    decreases |b|
  {
    if b == [] {
      assert a + b == a;
    } else {
      assert (a + b)[..|a + b| - 1] == a + b[..|b| - 1];
      LeftAppend(a, b[..|b| - 1]);
    }
  }

  lemma {:induction false} NothingLeftIff(ls: seq<string>)
    ensures Left(ls) == 0 <==> AreSeparators(ls)
  {
    if ls != [] {
      NothingLeftIff(ls[..|ls| - 1]);
      assert ls == ls[..|ls| - 1] + [ls[|ls| - 1]];
    }
  }

  lemma {:induction false} SizesAppend(a: seq<string>, b: seq<string>)
    ensures Sizes(a + b) == Sizes(a) + Sizes(b)
    decreases |b|
  {
    if b == [] {
      assert a + b == a;
    } else {
      assert (a + b)[..|a + b| - 1] == a + b[..|b| - 1];
      SizesAppend(a, b[..|b| - 1]);
    }
  }

  /** The lines gathered for a message, the last one ended like the others. */
  lemma {:induction false} AllLinesSnoc(ls: seq<string>, l: string)
    ensures AllLines(ls + [l]) == AllLines(ls) + l + "\n"
  {
    if ls == [] {
      assert ls + [l] == [l] && [l][1..] == [];
    } else {
      assert (ls + [l])[1..] == ls[1..] + [l];
      AllLinesSnoc(ls[1..], l);
    }
  }

  predicate NoSeparators(ls: seq<string>) {
    AreLines(ls) && forall l | l in ls :: !HasAt(l, FROM, 0)
  }

  lemma {:induction false} StripAllAllLines(ls: seq<string>)
    requires NoSeparators(ls)
    ensures |AllLines(StripAll(ls))| == Left(ls)
  {
    if ls != [] {
      var init, last := ls[..|ls| - 1], ls[|ls| - 1];
      assert ls == init + [last];
      StripAllAllLines(init);
      StripAllSnoc(init, last);
      AllLinesSnoc(StripAll(init), StripLine(last));
    }
  }

  /** A message flushed is as long as its lines left. */
  lemma {:induction false} FlushLeaves(ls: seq<string>)
    requires NoSeparators(ls)
    ensures Sizes(Flush(AllLines(ls))) == Left(ls)
  {
    var current := AllLines(ls);
    if ls != [] {
      AllLinesIsUnlines(ls);
      LinesOfUnlines(ls);
      LinesAppend(Unlines(ls), "");
      assert Unlines(ls) + "\n" + "" == current;
      assert Lines("") == [""] && StripLine("") == "";
      StripAllSnoc(ls, "");
      StripAllAllLines(ls);
      AllLinesIsUnlines(StripAll(ls));
      UnlinesSnoc(StripAll(ls), "");
      assert Sizes([Stripped(current)]) == |Stripped(current)|;
    }
  }

  /** A file that ends with a line end holds as much in its messages as its lines leave. */
  lemma {:induction false} SplitLeaves(ls: seq<string>, gathered: seq<string>)
    requires AreLines(ls) && NoSeparators(gathered)
    ensures Sizes(SplitLines(ls + [""], AllLines(gathered))) == Left(gathered) + Left(ls)
    decreases |ls|
  {
    hide Left, Flush, Stripped, StripLine;
    FlushLeaves(gathered);
    var current := AllLines(gathered);
    if ls == [] {
      RemainingAtEnd(current, true);
      assert ls + [""] == [""] && Lines("") == [""];
      LeftAppend(gathered, ls);
      assert gathered + ls == gathered;
    } else {
      var l, more := ls[0], ls[1..];
      assert (ls + [""])[1..] == more + [""] && ls == [l] + more;
      LeftAppend([l], more);
      LeftOne(l);
      if HasAt(l, FROM, 0) {
        assert NoSeparators([]) && AllLines([]) == "";
        SplitLeaves(more, []);
        SizesAppend(Flush(current), SplitLines(more + [""], ""));
      } else {
        assert NoSeparators(gathered + [l]);
        AllLinesSnoc(gathered, l);
        LeftAppend(gathered, [l]);
        SplitLeaves(more, gathered + [l]);
      }
    }
  }

  lemma LeftOne(l: string)
    ensures Left([]) == 0 && (HasAt(l, FROM, 0) ==> Left([l]) == 0)
  {
    assert [l][..0] == [];
  }

  lemma {:induction false} QuotedLeaves(raw: string)
    ensures Left(Lines(Quoted(raw))) == |raw| + 1
  {
    QuotedLines(raw);
    StripUndoesQuoteAll(Lines(raw));
    UnlinesOfLines(raw);
    UnlinesOfLines(Quoted(raw));
    StripAllAllLines(Lines(Quoted(raw)));
    AllLinesIsUnlines(Lines(raw));
  }

  /** What the separators of a file leave in its messages. */
  function Stray(ms: seq<Stored>): nat {
    if ms == [] then 0 else Stray(ms[..|ms| - 1]) + Left(Lines(SeparatorLine(ms[|ms| - 1])))
  }

  lemma {:induction false} NoStrayIff(ms: seq<Stored>)
    ensures Stray(ms) == 0 <==> forall m | m in ms :: Separates(m)
  {
    hide Separates, Left, SeparatorLine;
    if ms != [] {
      NoStrayIff(ms[..|ms| - 1]);
      assert ms == ms[..|ms| - 1] + [ms[|ms| - 1]];
      SeparatesIff(ms[|ms| - 1]);
    }
  }

  lemma SeparatesIff(m: Stored)
    ensures Left(Lines(SeparatorLine(m))) == 0 <==> Separates(m)
  {
    hide SeparatorLine, Left;
    NothingLeftIff(Lines(SeparatorLine(m)));
  }

  /** The lines of an exported file before its end. */
  function ExportLines(ms: seq<Stored>): seq<string>
    requires AllWithBody(ms)
  {
    if ms == [] then []
    else
      var m := ms[|ms| - 1];
      ExportLines(ms[..|ms| - 1]) + (Lines(SeparatorLine(m)) + Lines(Quoted(Enriched(m))))
  }

  lemma {:induction false} ExportLinesAre(ms: seq<Stored>, rest: string)
    requires AllWithBody(ms)
    ensures Lines(MboxText(ms) + rest) == ExportLines(ms) + Lines(rest) && AreLines(ExportLines(ms))
  {
    hide Quoted, Enriched, SeparatorLine, Lines;
    if ms == [] {
      assert "" + rest == rest;
    } else {
      var fewer, m := ms[..|ms| - 1], ms[|ms| - 1];
      var separator, body := SeparatorLine(m), Quoted(Enriched(m));
      RestOfFile(MboxText(fewer), separator, body, rest);
      ExportLinesAre(fewer, separator + "\n" + (body + "\n" + rest));
      LinesAppend(separator, body + "\n" + rest);
      LinesAppend(body, rest);
      UnlinesOfLines(separator);
      UnlinesOfLines(body);
      Associate(Lines(separator), Lines(body), Lines(rest));
      Associate(ExportLines(fewer), Lines(separator) + Lines(body), Lines(rest));
    }
  }

  lemma {:induction false} ExportLeaves(ms: seq<Stored>)
    requires AllWithBody(ms)
    ensures Left(ExportLines(ms)) == Sizes(Reimported(ms)) + Stray(ms)
  {
    hide Quoted, Enriched, SeparatorLine, Lines, Left;
    LeftOne("");
    if ms != [] {
      var fewer, m := ms[..|ms| - 1], ms[|ms| - 1];
      var one := Lines(SeparatorLine(m)) + Lines(Quoted(Enriched(m)));
      ExportLeaves(fewer);
      LeftAppend(ExportLines(fewer), one);
      LeftAppend(Lines(SeparatorLine(m)), Lines(Quoted(Enriched(m))));
      QuotedLeaves(Enriched(m));
    }
  }

  /** Splitting an exported file gives one message per export, the message with its status headers
      and one LF, exactly when every line of the separators starts like one. */
  lemma {:induction false} ExportRoundTripIff(ms: seq<Stored>)
    requires AllWithBody(ms)
    ensures Split(MboxText(ms)) == Reimported(ms) <==> forall m | m in ms :: Separates(m)
  {
    hide MboxText, Separates, SplitLines, Left;
    assert MboxText(ms) + "" == MboxText(ms);
    if forall m | m in ms :: Separates(m) {
      SplitExportWith(ms, "");
      RemainingAtEnd("", true);
      assert Reimported(ms) + [] == Reimported(ms);
    }
    ExportLinesAre(ms, "");
    LeftOne("");
    SplitLeaves(ExportLines(ms), []);
    ExportLeaves(ms);
    NoStrayIff(ms);
  }

  lemma {:induction false} ReimportedAt(ms: seq<Stored>, i: nat)
    requires AllWithBody(ms) && i < |ms|
    ensures |Reimported(ms)| == |ms| && Reimported(ms)[i] == Enriched(ms[i]) + "\n"
  {
    hide Enriched;
    if |ms| > 1 {
      ReimportedAt(ms[..|ms| - 1], if i < |ms| - 1 then i else 0);
    }
  }

  /** The flags imported with the i-th message are the supported ones it was exported with. */
  lemma {:induction false} ExportKeepsFlags(ms: seq<Stored>, i: nat)
    requires AllWithBody(ms) && (forall m | m in ms :: Separates(m)) && i < |ms|
    ensures |Split(MboxText(ms))| == |ms|
    ensures FlagsOf(Split(MboxText(ms))[i]) == SupportedFlags(ms[i].flags)
  {
    ExportRoundTripIff(ms);
    ReimportedAt(ms, i);
    FlagsRoundTrip(ms[i].body.value, ms[i].flags);
  }
}
