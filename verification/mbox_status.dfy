/** Message flags kept in Status and X-Status header lines. */
module MboxStatus {
  import opened Common
  import opened Text
  import opened Mbox

  // ---- flags and their letters ----

  function Letter(flags: string, flag: string, letter: string): string {
    if Contains(flags, flag) then letter else ""
  }

  function StatusLetters(flags: string): string {
    Letter(flags, "\\Seen", "R") + "O"
  }

  function XStatusLetters(flags: string): string {
    Letter(flags, "\\Flagged", "F") + Letter(flags, "\\Answered", "A")
    + Letter(flags, "\\Deleted", "D") + Letter(flags, "\\Draft", "T")
  }

  /** The header lines for a flag string; there is always a Status line. */
  function StatusLines(flags: string): seq<string> {
    ["Status" + ": " + StatusLetters(flags)]
    + if XStatusLetters(flags) == "" then [] else ["X-Status" + ": " + XStatusLetters(flags)]
  }

  function StatusBlock(flags: string): string {
    Terminated(StatusLines(flags))
  }

  function Join(words: seq<string>): string {
    if words == [] then "" else if |words| == 1 then words[0] else words[0] + " " + Join(words[1..])
  }

  function FlagList(seen: bool, flagged: bool, answered: bool, deleted: bool, draft: bool): string {
    Join((if seen then ["\\Seen"] else []) + (if flagged then ["\\Flagged"] else [])
         + (if answered then ["\\Answered"] else []) + (if deleted then ["\\Deleted"] else [])
         + (if draft then ["\\Draft"] else []))
  }

  /** The five flags that mbox files can carry, of those in the flag string. */
  function SupportedFlags(flags: string): string {
    FlagList(Contains(flags, "\\Seen"), Contains(flags, "\\Flagged"), Contains(flags, "\\Answered"),
             Contains(flags, "\\Deleted"), Contains(flags, "\\Draft"))
  }

  // ---- header lines ----

  function Colon(line: string): Option<nat> {
    Find(line, ":", 0)
  }

  predicate IsHeader(line: string, name: string) {
    Colon(line).Some? && Lower(Trim(line[..Colon(line).value], Ascii)) == Lower(name)
  }

  function WithoutCr(line: string): string {
    if line != "" && line[|line| - 1] == '\r' then line[..|line| - 1] else line
  }

  predicate IsStatusHeader(line: string) {
    IsHeader(line, "Status") || IsHeader(line, "X-Status")
  }

  function HeaderIn(ls: seq<string>, name: string): string {
    if ls == [] || ls[0] == "" || ls[0] == "\r" then ""
    else if IsHeader(ls[0], name) then Trim(ls[0][Colon(ls[0]).value + 1..], Ascii)
    else HeaderIn(ls[1..], name)
  }

  function FlagsOf(raw: string): string {
    var status, xStatus := HeaderIn(Lines(raw), "Status"), HeaderIn(Lines(raw), "X-Status");
    FlagList('R' in status, 'F' in xStatus, 'A' in xStatus, 'D' in xStatus, 'T' in xStatus)
  }

  /** The header section without its status headers, the block at its end, and the rest. */
  function InjectLines(ls: seq<string>, block: string): string {
    if ls == [] then block
    else if IsStatusHeader(WithoutCr(ls[0])) then InjectLines(ls[1..], block)
    else if WithoutCr(ls[0]) == "" then block + AllLines(ls)
    else ls[0] + "\n" + InjectLines(ls[1..], block)
  }

  function Injected(raw: string, flags: string): string {
    InjectLines(Lines(raw), StatusBlock(flags))
  }

  method HeaderValue(raw: string, name: string) returns (value: string)
    ensures value == HeaderIn(Lines(raw), name)
  {
    var lines := Lines(raw);
    for i := 0 to |lines|
      invariant HeaderIn(lines[i..], name) == HeaderIn(lines, name)
    {
      var line := lines[i];
      assert lines[i..][1..] == lines[i + 1..];
      if line == "" || line == "\r" {
        break;
      }
      var colon := Colon(line);
      if colon.Some? && Lower(Trim(line[..colon.value], Ascii)) == Lower(name) {
        return Trim(line[colon.value + 1..], Ascii);
      }
    }
    return "";
  }

  method FlagsFromStatusHeaders(raw: string) returns (flags: string)
    ensures flags == FlagsOf(raw)
  {
    var status := HeaderValue(raw, "Status");
    var xStatus := HeaderValue(raw, "X-Status");
    flags := FlagList('R' in status, 'F' in xStatus, 'A' in xStatus, 'D' in xStatus, 'T' in xStatus);
  }

  method InjectStatusHeaders(raw: string, flags: string) returns (out: string)
    ensures out == Injected(raw, flags)
  {
    var block := StatusBlock(flags);
    var lines := Lines(raw);
    var inHeaders, statusWritten := true, false;
    out := "";
    for i := 0 to |lines|
      invariant statusWritten == !inHeaders
      invariant out + (if inHeaders then InjectLines(lines[i..], block) else AllLines(lines[i..]))
             == Injected(raw, flags)
    {
      var line := lines[i];
      var stripped := WithoutCr(line);
      ghost var rest := lines[i..];
      assert rest[0] == line && rest[1..] == lines[i + 1..];
      if inHeaders {
        if IsStatusHeader(stripped) {
          continue;
        }
        if stripped == "" {
          Associate(out, block, AllLines(rest));
          out := out + block;
          statusWritten, inHeaders := true, false;
        }
      }
      Associate(out, line + "\n", if inHeaders then InjectLines(rest[1..], block) else AllLines(rest[1..]));
      Associate(out, line, "\n");
      out := out + line;
      out := out + "\n";
    }
    assert lines[|lines|..] == [];
    if !statusWritten {
      out := out + block;
    } else {
      assert out + "" == out;
    }
  }

  // ---- what was injected is read back ----

  lemma {:induction false} ColonBeforeCr(line: string, from: nat)
    ensures Find(WithoutCr(line), ":", from) == Find(line, ":", from)
    decreases |line| - from
  {
    var s := WithoutCr(line);
    if from < |line| {
      ColonBeforeCr(line, from + 1);
      assert from < |s| ==> s[from..from + 1] == line[from..from + 1];
      assert line[from..from + 1] == [line[from]];
    }
  }

  lemma StatusHeaderBeforeCr(line: string, name: string)
    ensures IsHeader(line, name) == IsHeader(WithoutCr(line), name)
  {
    ColonBeforeCr(line, 0);
    var colon := Colon(line);
    if colon.Some? {
      assert WithoutCr(line)[..colon.value] == line[..colon.value];
    }
  }

  lemma {:induction false} TerminatedLines(ls: seq<string>, rest: string)
    requires AreLines(ls)
    ensures Lines(Terminated(ls) + rest) == ls + Lines(rest)
  {
    if ls == [] {
      assert "" + rest == rest && ls + Lines(rest) == Lines(rest);
    } else {
      var fewer, last := ls[..|ls| - 1], ls[|ls| - 1];
      TerminatedLines(fewer, last + "\n" + rest);
      LinesCons(last, rest);
      assert Terminated(ls) + rest == Terminated(fewer) + (last + "\n" + rest);
      assert ls + Lines(rest) == fewer + ([last] + Lines(rest));
    }
  }

  predicate Blank(line: string) {
    line == "" || line == "\r"
  }

  /** A status header line with this name and no other, and this value. */
  predicate NamedAs(line: string, name: string, letters: string) {
    && !Blank(line)
    && IsHeader(line, "Status") == (name == "Status") && IsHeader(line, "X-Status") == (name == "X-Status")
    && Colon(line).Some? && Trim(line[Colon(line).value + 1..], Ascii) == letters
  }

  lemma ColonAfterName(name: string, rest: string)
    requires ':' !in name
    ensures Colon(name + ":" + rest) == Some(|name|)
    ensures (name + ":" + rest)[..|name|] == name && (name + ":" + rest)[|name| + 1..] == rest
  {
    var line := name + ":" + rest;
    assert HasAt(line, ":", |name|);
    forall i | 0 <= i < |name| ensures !HasAt(line, ":", i) {
      assert line[i..i + 1] == [name[i]];
    }
    FindsAt(line, ":", 0, |name|);
  }

  lemma HeaderLineIs(name: string, value: string, other: string)
    requires ':' !in name && Trim(name, Ascii) == name
    ensures var line := name + ":" + value;
      && Colon(line) == Some(|name|) && line[|name| + 1..] == value
      && IsHeader(line, other) == (Lower(name) == Lower(other))
  {
    hide Colon, Trim, Lower;
    ColonAfterName(name, value);
  }

  lemma NameIsTrimmed(name: string)
    requires name == "Status" || name == "X-Status"
    ensures Trim(name, Ascii) == name && ':' !in name && |name| >= 6
    ensures Lower("Status") != Lower("X-Status")
  {
    hide Trim, Lower;
    TrimIs(name, Ascii, 0, name);
    assert |Lower("Status")| != |Lower("X-Status")|;
  }

  lemma NamedLine(line: string, name: string, letters: string)
    requires name == "Status" || name == "X-Status"
    requires letters != "" && forall c | c in letters :: !IsWhite(c, Ascii)
    requires line == name + ": " + letters
    ensures NamedAs(line, name, letters)
  {
    hide Colon, Trim, Lower, IsHeader, IsWhite;
    NameIsTrimmed(name);
    assert name + ":" + (" " + letters) == line;
    HeaderLineIs(name, " " + letters, "Status");
    HeaderLineIs(name, " " + letters, "X-Status");
    LettersAreTrimmed(letters);
  }

  lemma LettersAreTrimmed(letters: string)
    requires letters != "" && forall c | c in letters :: !IsWhite(c, Ascii)
    ensures Trim(" " + letters, Ascii) == letters
  {
    TrimIs(" " + letters, Ascii, 1, letters);
  }

  lemma StatusLettersFacts(flags: string)
    ensures var s, x := StatusLetters(flags), XStatusLetters(flags);
      && s != "" && (forall c | c in s + x :: !IsWhite(c, Ascii) && c != '\n')
      && ('R' in s <==> Contains(flags, "\\Seen"))
      && ('F' in x <==> Contains(flags, "\\Flagged")) && ('A' in x <==> Contains(flags, "\\Answered"))
      && ('D' in x <==> Contains(flags, "\\Deleted")) && ('T' in x <==> Contains(flags, "\\Draft"))
  {
  }

  lemma {:induction false} HeaderInCons(line: string, rest: seq<string>, name: string)
    requires !Blank(line)
    ensures HeaderIn([line] + rest, name)
         == if IsHeader(line, name) then Trim(line[Colon(line).value + 1..], Ascii) else HeaderIn(rest, name)
  {
    assert ([line] + rest)[1..] == rest;
  }

  lemma StatusLinesAre(flags: string)
    ensures var s, x, ls := StatusLetters(flags), XStatusLetters(flags), StatusLines(flags);
      && AreLines(ls)
      && NamedAs(ls[0], "Status", s) && (x == "" ==> ls == [ls[0]])
      && (x != "" ==> |ls| == 2 && NamedAs(ls[1], "X-Status", x))
  {
    var s, x := StatusLetters(flags), XStatusLetters(flags);
    StatusLettersFacts(flags);
    hide StatusLetters, XStatusLetters, IsHeader, Colon, Trim;
    NamedLine("Status" + ": " + s, "Status", s);
    IsLineCons("Status: ", s);
    if x != "" {
      NamedLine("X-Status" + ": " + x, "X-Status", x);
      IsLineCons("X-Status: ", x);
    }
  }

  lemma IsLineCons(a: string, b: string)
    requires IsLine(a) && forall c | c in b :: c != '\n'
    ensures IsLine(a + b)
  {
  }

  lemma {:induction false} BlankEnds(rest: seq<string>)
    requires rest != [] && Blank(rest[0])
    ensures HeaderIn(rest, "Status") == "" && HeaderIn(rest, "X-Status") == ""
  {
  }

  lemma {:induction false} StatusLinesRead(flags: string, rest: seq<string>)
    requires rest != [] && Blank(rest[0])
    ensures HeaderIn(StatusLines(flags) + rest, "Status") == StatusLetters(flags)
    ensures HeaderIn(StatusLines(flags) + rest, "X-Status") == XStatusLetters(flags)
    ensures AreLines(StatusLines(flags))
  {
    hide StatusLines, IsHeader, StatusLetters, XStatusLetters, Colon, Trim, HeaderIn;
    BlankEnds(rest);
    var ls := StatusLines(flags);
    StatusLinesAre(flags);
    if XStatusLetters(flags) == "" {
      HeaderInCons(ls[0], rest, "Status");
      HeaderInCons(ls[0], rest, "X-Status");
    } else {
      assert ls + rest == [ls[0]] + ([ls[1]] + rest);
      HeaderInCons(ls[0], [ls[1]] + rest, "Status");
      HeaderInCons(ls[0], [ls[1]] + rest, "X-Status");
      HeaderInCons(ls[1], rest, "X-Status");
    }
  }

  /** Whatever header lines there were, reading finds the injected ones. */
  lemma {:induction false} InjectedLinesRead(ls: seq<string>, flags: string)
    requires AreLines(ls)
    ensures var after := Lines(InjectLines(ls, StatusBlock(flags)) + "\n");
      && HeaderIn(after, "Status") == StatusLetters(flags)
      && HeaderIn(after, "X-Status") == XStatusLetters(flags)
  {
    var block := StatusBlock(flags);
    if ls == [] {
      LinesCons("", "");
      assert "" + "\n" + "" == "\n";
      StatusLinesRead(flags, Lines("\n"));
      TerminatedLines(StatusLines(flags), "\n");
    } else if IsStatusHeader(WithoutCr(ls[0])) {
      InjectedLinesRead(ls[1..], flags);
    } else if WithoutCr(ls[0]) == "" {
      var rest := AllLines(ls) + "\n";
      assert rest == ls[0] + "\n" + (AllLines(ls[1..]) + "\n");
      LinesCons(ls[0], AllLines(ls[1..]) + "\n");
      StatusLinesRead(flags, Lines(rest));
      TerminatedLines(StatusLines(flags), rest);
      Associate(block, AllLines(ls), "\n");
    } else {
      var rest := InjectLines(ls[1..], block) + "\n";
      InjectedLinesRead(ls[1..], flags);
      LinesCons(ls[0], rest);
      assert ls[0] + "\n" + InjectLines(ls[1..], block) + "\n" == ls[0] + "\n" + rest;
      StatusHeaderBeforeCr(ls[0], "Status");
      StatusHeaderBeforeCr(ls[0], "X-Status");
      assert ([ls[0]] + Lines(rest))[1..] == Lines(rest);
    }
  }

  /** The flags read from a message with injected headers, and one more LF, are exactly
      the supported flags it was given, whatever status headers it had. */
  lemma FlagsRoundTrip(raw: string, flags: string)
    ensures FlagsOf(Injected(raw, flags) + "\n") == SupportedFlags(flags)
  {
    UnlinesOfLines(raw);
    InjectedLinesRead(Lines(raw), flags);
    StatusLettersFacts(flags);
  }
}
