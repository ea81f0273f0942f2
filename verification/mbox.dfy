/** The mbox format: From-quoting, and splitting a file into messages. */
module Mbox {
  import opened Common
  import opened Text

  const FROM := "From "

  function AllLines(ls: seq<string>): string {
    if ls == [] then "" else ls[0] + "\n" + AllLines(ls[1..])
  }

  lemma {:induction false} AllLinesIsUnlines(ls: seq<string>)
    requires ls != []
    ensures AllLines(ls) == Unlines(ls) + "\n"
  {
    if |ls| > 1 {
      AllLinesIsUnlines(ls[1..]);
    }
  }

  // ---- quoting, line by line ----

  /** The number of leading '>'. */
  function Gts(s: string): (n: nat)
    ensures n <= |s|
  {
    if s == "" || s[0] != '>' then 0 else 1 + Gts(s[1..])
  }

  predicate IsFromLine(line: string) {
    HasAt(line, FROM, Gts(line))
  }

  function QuoteLine(line: string): string {
    if IsFromLine(line) then ">" + line else line
  }

  function StripLine(line: string): string {
    if line != "" && line[0] == '>' && IsFromLine(line) then line[1..] else line
  }

  function QuoteAll(ls: seq<string>): (r: seq<string>)
    ensures |r| == |ls|
  {
    if ls == [] then [] else [QuoteLine(ls[0])] + QuoteAll(ls[1..])
  }

  function StripAll(ls: seq<string>): (r: seq<string>)
    ensures |r| == |ls|
  {
    if ls == [] then [] else [StripLine(ls[0])] + StripAll(ls[1..])
  }

  function Quoted(raw: string): string {
    Unlines(QuoteAll(Lines(raw)))
  }

  function Stripped(buf: string): string {
    Unlines(StripAll(Lines(buf)))
  }

  lemma StripUndoesQuoteLine(line: string)
    ensures StripLine(QuoteLine(line)) == line && !HasAt(QuoteLine(line), FROM, 0)
    ensures IsLine(line) ==> IsLine(QuoteLine(line))
  {
    assert HasAt(line, FROM, 0) ==> line[0] == FROM[0];
    if IsFromLine(line) {
      assert (">" + line)[1..] == line;
      assert (">" + line)[Gts(line) + 1..Gts(line) + 6] == line[Gts(line)..Gts(line) + 5];
    }
  }

  lemma {:induction false} StripUndoesQuoteAll(ls: seq<string>)
    ensures StripAll(QuoteAll(ls)) == ls
    ensures forall l | l in QuoteAll(ls) :: !HasAt(l, FROM, 0)
    ensures AreLines(ls) ==> AreLines(QuoteAll(ls))
  {
    if ls != [] {
      StripUndoesQuoteLine(ls[0]);
      StripUndoesQuoteAll(ls[1..]);
      assert QuoteAll(ls)[1..] == QuoteAll(ls[1..]);
    }
  }

  lemma {:induction false} QuotedLines(raw: string)
    ensures Lines(Quoted(raw)) == QuoteAll(Lines(raw))
  {
    UnlinesOfLines(raw);
    StripUndoesQuoteAll(Lines(raw));
    LinesOfUnlines(QuoteAll(Lines(raw)));
  }

  /** Stripping undoes quoting, and no line of quoted text starts like a separator. */
  lemma StripUndoesQuote(raw: string)
    ensures Stripped(Quoted(raw)) == raw
    ensures forall l | l in Lines(Quoted(raw)) :: !HasAt(l, FROM, 0)
  {
    QuotedLines(raw);
    StripUndoesQuoteAll(Lines(raw));
    UnlinesOfLines(raw);
  }

  // ---- splitting, line by line ----

  function Flush(current: string): seq<string> {
    if current == "" then [] else [Stripped(current)]
  }

  /** The messages in the remaining lines of a file, `current` holding the one begun. */
  function SplitLines(ls: seq<string>, current: string): seq<string>
    decreases |ls|
  {
    if ls == [] then Flush(current)
    else if HasAt(ls[0], FROM, 0) then Flush(current) + SplitLines(ls[1..], "")
    else SplitLines(ls[1..], current + ls[0] + if |ls| == 1 then "" else "\n")
  }

  function Split(buf: string): seq<string> {
    SplitLines(Lines(buf), "")
  }

  // ---- the same, from the middle of a line ----

  function StripTail(s: string): string {
    var n := LineLen(s);
    if n < |s| then s[..n] + "\n" + Stripped(s[n + 1..]) else s
  }

  function SplitTail(s: string, current: string): seq<string> {
    var n := LineLen(s);
    if n < |s| then SplitLines(Lines(s[n + 1..]), current + s[..n] + "\n") else Flush(current + s)
  }

  /** Whether a buffer starts with a separator or quoted separator shows in its first line. */
  lemma {:induction false} FirstLineDecides(s: string)
    ensures var line := s[..LineLen(s)];
      && Gts(s) == Gts(line) && IsFromLine(s) == IsFromLine(line) && HasAt(s, FROM, 0) == HasAt(line, FROM, 0)
  {
    FromInLine(s, 0);
    GtsInLine(s);
    FromInLine(s, Gts(s));
  }

  lemma {:induction false} GtsInLine(s: string)
    ensures Gts(s) == Gts(s[..LineLen(s)])
  {
    if s != "" && s[0] == '>' {
      GtsInLine(s[1..]);
      assert s[..LineLen(s)][1..] == s[1..][..LineLen(s[1..])];
    }
  }

  lemma {:induction false} FromInLine(s: string, i: nat)
    requires i <= LineLen(s)
    ensures HasAt(s, FROM, i) == HasAt(s[..LineLen(s)], FROM, i)
  {
    LineLenStops(s);
    var n := LineLen(s);
    assert i + 5 <= |s| && n < i + 5 ==> s[i..i + 5][n - i] == s[n] == '\n';
  }

  lemma StripTailStep(s: string)
    requires s != ""
    ensures StripTail(s) == [s[0]] + if s[0] == '\n' then Stripped(s[1..]) else StripTail(s[1..])
  {
    hide Stripped;
    var n := LineLen(s);
    if s[0] == '\n' {
      assert s[..0] + "\n" == [s[0]];
    } else {
      CutTail(s, n);
      if n < |s| {
        Associate4([s[0]], s[1..][..n - 1], "\n", Stripped(s[n + 1..]));
        Associate(s[1..][..n - 1], "\n", Stripped(s[n + 1..]));
      } else {
        assert s == [s[0]] + s[1..];
      }
    }
  }

  lemma {:induction false} SplitTailStep(s: string, current: string)
    requires s != ""
    ensures SplitTail(s, current)
         == if s[0] == '\n' then SplitLines(Lines(s[1..]), current + [s[0]])
            else SplitTail(s[1..], current + [s[0]])
  {
    hide SplitLines, Flush, Lines;
    var n := LineLen(s);
    if s[0] == '\n' {
      assert current + s[..0] + "\n" == current + [s[0]];
    } else {
      CutTail(s, n);
      Associate(current, [s[0]], s[1..][..n - 1]);
      if n == |s| {
        assert s == [s[0]] + s[1..];
        Associate(current, [s[0]], s[1..]);
      }
    }
  }

  lemma StrippedFromStart(s: string)
    ensures Stripped(s) == if s != "" && s[0] == '>' && IsFromLine(s) then StripTail(s[1..]) else StripTail(s)
  {
    hide StripLine, IsFromLine, Stripped, HasAt, Gts, LineLen;
    FirstLineDecides(s);
    StrippedFirst(s);
    StripLineInText(s);
    assert s[..|s|] == s;
    if s != "" && s[0] == '>' {
      StripTailBehind(s);
    }
  }

  lemma {:induction false} StripTailBehind(s: string)
    requires s != "" && s[0] != '\n'
    ensures var n := LineLen(s);
      StripTail(s[1..]) == if n < |s| then s[..n][1..] + "\n" + Stripped(s[n + 1..]) else s[1..]
  {
    hide Stripped;
    CutTail(s, LineLen(s));
    assert s[..LineLen(s)][1..] == s[1..][..LineLen(s) - 1];
  }

  lemma {:induction false} StripLineInText(s: string)
    requires IsFromLine(s) == IsFromLine(s[..LineLen(s)])
    ensures var line := s[..LineLen(s)];
      StripLine(line) == if s != "" && s[0] == '>' && IsFromLine(s) then line[1..] else line
  {
    hide Gts, HasAt;
  }

  /** The first line stripped, and then the rest. */
  lemma {:induction false} StrippedFirst(s: string)
    ensures var n := LineLen(s);
      Stripped(s) == if n < |s| then StripLine(s[..n]) + "\n" + Stripped(s[n + 1..]) else StripLine(s)
  {
    hide StripLine, StripAll, Unlines, LineLen, Lines;
    LinesFirst(s);
    var n := LineLen(s);
    if n < |s| {
      StripAllCons(s[..n], Lines(s[n + 1..]));
      UnlinesCons(StripLine(s[..n]), StripAll(Lines(s[n + 1..])));
    } else {
      assert [s] + [] == [s];
      StripAllCons(s, []);
      OneLine(StripLine(s));
    }
  }

  lemma {:induction false} LinesFirst(s: string)
    ensures var n := LineLen(s); Lines(s) == if n < |s| then [s[..n]] + Lines(s[n + 1..]) else [s]
  {
    hide LineLen;
  }

  lemma {:induction false} StripAllCons(line: string, ls: seq<string>)
    ensures StripAll([line] + ls) == [StripLine(line)] + StripAll(ls)
  {
    assert ([line] + ls)[1..] == ls;
  }

  lemma {:induction false} UnlinesCons(line: string, ls: seq<string>)
    requires ls != []
    ensures Unlines([line] + ls) == line + "\n" + Unlines(ls)
  {
    assert ([line] + ls)[1..] == ls;
  }

  lemma OneLine(line: string)
    ensures Unlines([line] + StripAll([])) == line
  {
    assert [line] + StripAll([]) == [line];
  }

  lemma {:induction false} SplitFromStart(s: string, current: string)
    ensures SplitLines(Lines(s), current)
         == if HasAt(s, FROM, 0) then Flush(current) + SplitAfterLine(s) else SplitTail(s, current)
  {
    FirstLineDecides(s);
    var n, ls := LineLen(s), Lines(s);
    assert ls[0] == s[..n];
    if n < |s| {
      assert ls[1..] == Lines(s[n + 1..]);
    } else {
      assert current + s + "" == current + s;
    }
  }

  /** The messages after the first line of a buffer. */
  function SplitAfterLine(s: string): seq<string> {
    Split(PastLine(s))
  }

  function PastLine(s: string): string {
    if LineLen(s) < |s| then s[LineLen(s) + 1..] else ""
  }

  /** The messages still to come in the splitting loop. */
  function Remaining(s: string, current: string, atLineStart: bool): seq<string> {
    if atLineStart then SplitLines(Lines(s), current) else SplitTail(s, current)
  }

  lemma RemainingAtSeparator(s: string, current: string)
    requires HasAt(s, FROM, 0)
    ensures Remaining(s, current, true) == Flush(current) + Remaining(PastLine(s), "", true)
  {
    SplitFromStart(s, current);
  }

  lemma RemainingStep(s: string, current: string, atLineStart: bool)
    requires s != "" && !(atLineStart && HasAt(s, FROM, 0))
    ensures Remaining(s, current, atLineStart) == Remaining(s[1..], current + [s[0]], s[0] == '\n')
  {
    SplitFromStart(s, current);
    SplitTailStep(s, current);
  }

  lemma RemainingAtEnd(current: string, atLineStart: bool)
    ensures Remaining("", current, atLineStart) == Flush(current)
  {
    assert current + "" == current && current + "" + "" == current;
    assert Lines("") == [""] && !HasAt("", FROM, 0);
    assert SplitLines([""], current) == SplitLines([""][1..], current + "" + "");
  }

  // ---- the program's loops ----

  function Terminated(ls: seq<string>): string {
    if ls == [] then "" else Terminated(ls[..|ls| - 1]) + ls[|ls| - 1] + "\n"
  }

  lemma {:induction false} TerminatedIsUnlines(ls: seq<string>)
    requires ls != []
    ensures Terminated(ls) == Unlines(ls) + "\n"
  {
    if |ls| > 1 {
      var fewer := ls[..|ls| - 1];
      TerminatedIsUnlines(fewer);
      UnlinesSnoc(fewer, ls[|ls| - 1]);
      assert ls == fewer + [ls[|ls| - 1]];
    }
  }

  lemma {:induction false} UnlinesSnoc(ls: seq<string>, l: string)
    requires ls != []
    ensures Unlines(ls + [l]) == Unlines(ls) + "\n" + l
  {
    assert (ls + [l])[1..] == ls[1..] + [l];
    if |ls| > 1 {
      UnlinesSnoc(ls[1..], l);
    }
  }

  lemma {:induction false} QuoteAllAt(ls: seq<string>, i: nat)
    requires i < |ls|
    ensures QuoteAll(ls)[i] == QuoteLine(ls[i])
  {
    if i > 0 {
      QuoteAllAt(ls[1..], i - 1);
    }
  }

  lemma {:induction false} GtsAreGts(s: string)
    ensures s[..Gts(s)] + ">" == ">" + s[..Gts(s)]
  {
    if s != "" && s[0] == '>' {
      GtsAreGts(s[1..]);
      assert s[..Gts(s)] == ">" + s[1..][..Gts(s[1..])];
    }
  }

  method ApplyFromQuoting(raw: string) returns (out: string)
    ensures out == Quoted(raw)
  {
    hide Lines, QuoteAll, Gts, Unlines;
    var lines := Lines(raw);
    ghost var quoted := QuoteAll(lines);
    out := "";
    for i := 0 to |lines|
      invariant out == Terminated(quoted[..i])
    {
      var line := lines[i];
      var gt := Gts(line);
      assert quoted[..i + 1][..i] == quoted[..i];
      QuoteAllAt(lines, i);
      if HasAt(line, FROM, gt) {
        GtsAreGts(line);
        assert line[..gt] + ">" + line[gt..] == ">" + line;
        out := out + (line[..gt] + ">" + line[gt..]);
      } else {
        out := out + line;
      }
      out := out + "\n";
    }
    assert quoted[..|lines|] == quoted;
    TerminatedIsUnlines(quoted);
    if out != "" && out[|out| - 1] == '\n' {
      out := out[..|out| - 1];
    }
  }

  method StripFromQuoting(buf: string) returns (out: string)
    ensures out == Stripped(buf)
  {
    hide Stripped, StripTail, Gts, HasAt;
    out := "";
    var atLineStart, i := true, 0;
    while i < |buf|
      invariant 0 <= i <= |buf|
      invariant out + (if atLineStart then Stripped(buf[i..]) else StripTail(buf[i..])) == Stripped(buf)
    {
      ghost var rest := buf[i..];
      StrippedFromStart(rest);
      if atLineStart && buf[i] == '>' {
        var gtCount := Gts(buf[i..]);
        if HasAt(buf[i..], FROM, gtCount) {
          assert rest[1..] == buf[i + 1..];
          FromFits(rest);
          i := i + 1;
        }
      }
      StripTailStep(buf[i..]);
      assert buf[i..][1..] == buf[i + 1..];
      Associate(out, [buf[i]], if buf[i] == '\n' then Stripped(buf[i + 1..]) else StripTail(buf[i + 1..]));
      out := out + [buf[i]];
      atLineStart := buf[i] == '\n';
      i := i + 1;
    }
    assert buf[i..] == "";
    NothingStripped();
    assert out + "" == out;
  }

  lemma {:induction false} FromFits(s: string)
    requires HasAt(s, FROM, Gts(s))
    ensures |s| >= 5
  {
    assert |FROM| == 5;
  }

  lemma NothingStripped()
    ensures Stripped("") == "" && StripTail("") == ""
  {
    assert Lines("") == [""] && StripAll([""]) == [StripLine("")] + StripAll([""][1..]);
  }

  /** The position after the separator line that starts at i. */
  method SkipLine(buf: string, i: nat) returns (j: nat)
    requires i < |buf| && buf[i] != '\n'
    ensures i < j <= |buf| && buf[j..] == PastLine(buf[i..])
  {
    j := i;
    while j < |buf| && buf[j] != '\n'
      invariant i <= j <= |buf| && forall k | i <= k < j :: buf[k] != '\n'
    {
      j := j + 1;
    }
    LineLenIs(buf[i..], j - i);
    if j < |buf| {
      assert buf[i..][j - i + 1..] == buf[j + 1..];
      j := j + 1;
    }
  }

  method SplitMbox(buf: string) returns (out: seq<string>)
    ensures out == Split(buf)
  {
    hide Remaining, Split;
    out := [];
    var current, atLineStart, i := "", true, 0;
    SplitIsRemaining(buf);
    while i < |buf|
      invariant 0 <= i <= |buf|
      invariant out + Remaining(buf[i..], current, atLineStart) == Split(buf)
    {
      ghost var rest := buf[i..];
      if atLineStart && HasAt(buf[i..], FROM, 0) {
        RemainingAtSeparator(rest, current);
        Associate(out, Flush(current), Remaining(PastLine(rest), "", true));
        if current != "" {
          var message := StripFromQuoting(current);
          out := out + [message];
          current := "";
        } else {
          assert out + Flush(current) == out;
        }
        i := SkipLine(buf, i);
      } else {
        RemainingStep(rest, current, atLineStart);
        assert rest[1..] == buf[i + 1..];
        current := current + [buf[i]];
        atLineStart := buf[i] == '\n';
        i := i + 1;
      }
    }
    RemainingAtEnd(current, atLineStart);
    assert buf[i..] == "";
    if current != "" {
      var message := StripFromQuoting(current);
      out := out + [message];
    } else {
      assert out + [] == out;
    }
  }

  lemma SplitIsRemaining(buf: string)
    ensures [] + Remaining(buf[0..], "", true) == Split(buf)
  {
    assert buf[0..] == buf;
  }

  // ---- what splitting finds ----

  predicate NoneSeparates(ls: seq<string>) {
    forall l | l in ls :: !HasAt(l, FROM, 0)
  }

  lemma {:induction false} GathersMessage(ls: seq<string>, rest: seq<string>, current: string)
    requires NoneSeparates(ls) && rest != []
    ensures SplitLines(ls + rest, current) == SplitLines(rest, current + AllLines(ls))
    decreases |ls|
  {
    if ls == [] {
      assert ls + rest == rest && current + "" == current;
    } else {
      assert ls[0] in ls && (ls + rest)[0] == ls[0] && (ls + rest)[1..] == ls[1..] + rest;
      GathersMessage(ls[1..], rest, current + ls[0] + "\n");
      assert current + ls[0] + "\n" + AllLines(ls[1..]) == current + AllLines(ls);
    }
  }

  /** The lines in front of a separator are a message of their own, also in front of the first
      separator; nothing between two separators is none. */
  lemma {:induction false} SplitsAtSeparator(ls: seq<string>, separator: string, rest: seq<string>)
    requires NoneSeparates(ls) && HasAt(separator, FROM, 0)
    ensures SplitLines(ls + [separator] + rest, "")
         == (if ls == [] then [] else [Stripped(AllLines(ls))]) + SplitLines(rest, "")
  {
    var tail := [separator] + rest;
    assert ls + [separator] + rest == ls + tail && tail[1..] == rest;
    GathersMessage(ls, tail, "");
    assert "" + AllLines(ls) == AllLines(ls);
    if ls != [] {
      assert AllLines(ls) == ls[0] + "\n" + AllLines(ls[1..]);
    }
  }

  /** Behind the last separator the message ends with the file, with a line end or without. */
  lemma {:induction false} SplitsAtEnd(ls: seq<string>, last: string)
    requires NoneSeparates(ls) && !HasAt(last, FROM, 0)
    ensures SplitLines(ls + [last], "")
         == if ls == [] && last == "" then [] else [Stripped(AllLines(ls) + last)]
  {
    GathersMessage(ls, [last], "");
    assert "" + AllLines(ls) == AllLines(ls) && [last][1..] == [];
    assert AllLines(ls) + last + "" == AllLines(ls) + last;
    if ls != [] {
      assert AllLines(ls) == ls[0] + "\n" + AllLines(ls[1..]);
    }
  }

  /** Text without quoted separators is its own stripped form. */
  lemma {:induction false} PlainIsStripped(ls: seq<string>)
    requires AreLines(ls) && ls != [] && forall l | l in ls :: !(">" <= l && IsFromLine(l))
    ensures Stripped(Unlines(ls)) == Unlines(ls)
  {
    LinesOfUnlines(ls);
    PlainLinesStay(ls);
  }

  lemma {:induction false} PlainLinesStay(ls: seq<string>)
    requires forall l | l in ls :: !(">" <= l && IsFromLine(l))
    ensures StripAll(ls) == ls
  {
    if ls != [] {
      assert ls[0] in ls;
      PlainLinesStay(ls[1..]);
    }
  }
}
