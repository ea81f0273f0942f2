/** What a record of several fields is read as. */
module SseRecords {
  import opened Common
  import opened Text
  import opened Sse
  import opened SseEvents

  // One line of a record: a data field, or any other.
  datatype Field = Data(text: string) | Other(line: string)

  function Line(f: Field): string {
    match f
    case Data(text) => "data:" + text
    case Other(line) => line
  }

  /** Fields that are one line each; the others are not empty and do not start like data. */
  predicate AreFields(fields: seq<Field>) {
    forall f | f in fields ::
      OneLine(Line(f)) && (f.Other? ==> f.line != "" && !("data:" <= f.line))
  }

  /** The fields, each line ended, and an empty line. */
  function SentRecord(fields: seq<Field>, eol: string): string {
    if fields == [] then eol else Line(fields[0]) + eol + SentRecord(fields[1..], eol)
  }

  /** The texts of the data fields without their leading white space. */
  function Texts(fields: seq<Field>): seq<string> {
    if fields == [] then []
    else (if fields[0].Data? then [TrimStart(fields[0].text, Unicode)] else []) + Texts(fields[1..])
  }

  /** The texts from the first that is not empty. */
  function FromFirstText(texts: seq<string>): seq<string> {
    if texts != [] && texts[0] == "" then FromFirstText(texts[1..]) else texts
  }

  // ---- the lines of a record ----

  lemma LineStarts(f: Field)
    requires AreFields([f])
    ensures Line(f) != "" && LineEndingLen(Line(f), 0) == 0
  {
    assert f in [f];
    if f.Data? {
      assert Line(f)[0] == 'd';
    }
  }

  /** The lines between terminators, without the last one's. */
  function Joined(fields: seq<Field>, eol: string): string
    requires fields != []
  {
    if |fields| == 1 then Line(fields[0]) else Line(fields[0]) + eol + Joined(fields[1..], eol)
  }

  lemma {:induction false} SentIsJoined(fields: seq<Field>, eol: string)
    requires fields != []
    ensures SentRecord(fields, eol) == Joined(fields, eol) + (eol + eol)
  {
    if |fields| == 1 {
      assert SentRecord(fields[1..], eol) == eol;
    } else {
      SentIsJoined(fields[1..], eol);
    }
  }

  lemma {:induction false} JoinedStarts(fields: seq<Field>, eol: string)
    requires fields != [] && AreFields(fields)
    ensures Joined(fields, eol) != "" && LineEndingLen(Joined(fields, eol), 0) == 0
  {
    assert fields[0] in fields;
    LineStarts(fields[0]);
    var line := Line(fields[0]);
    assert Joined(fields, eol)[0] == line[0];
  }

  lemma {:induction false} EndsOnceAfterLine(line: string, eol: string, b: string, i: nat)
    requires IsEol(eol) && OneLine(line) && b != "" && LineEndingLen(b, 0) == 0 && i < |line + eol|
    ensures BlankAt(line + eol + b, i) == 0
  {
    var s := line + eol + b;
    if i < |line| {
      assert s[i] == line[i];
    } else {
      assert s[|line + eol|] == b[0];
    }
  }

  /** No blank line before the record's end. */
  lemma {:induction false} NoBlankInside(fields: seq<Field>, eol: string, i: nat)
    requires IsEol(eol) && fields != [] && AreFields(fields) && i < |Joined(fields, eol)|
    ensures BlankAt(Joined(fields, eol) + (eol + eol), i) == 0
  {
    hide BlankAt;
    assert fields[0] in fields;
    var line := Line(fields[0]);
    if |fields| == 1 {
      InsideLine(line, eol + eol, i);
    } else {
      var more := Joined(fields[1..], eol) + (eol + eol);
      assert Joined(fields, eol) + (eol + eol) == line + eol + more;
      if i < |line + eol| {
        JoinedStarts(fields[1..], eol);
        assert more[0] == Joined(fields[1..], eol)[0];
        EndsOnceAfterLine(line, eol, more, i);
      } else {
        BlankAtShift(line + eol, more, i - |line + eol|);
        NoBlankInside(fields[1..], eol, i - |line + eol|);
      }
    }
  }

  lemma InsideLine(line: string, behind: string, i: nat)
    requires OneLine(line) && i < |line|
    ensures BlankAt(line + behind, i) == 0
  {
    assert (line + behind)[i] == line[i];
  }

  // ---- what is gathered ----

  lemma {:induction false} UnifyLine(line: string, b: string)
    requires OneLine(line)
    ensures Unify(line + b) == line + Unify(b)
  {
    if line == "" {
      assert line + b == b && line + Unify(b) == Unify(b);
    } else {
      assert (line + b)[0] == line[0] && (line + b)[1..] == line[1..] + b;
      UnifyLine(line[1..], b);
      assert line == [line[0]] + line[1..];
    }
  }

  lemma {:induction false} UnifyEol(eol: string, b: string)
    requires IsEol(eol) && b != "" && LineEndingLen(b, 0) == 0
    ensures Unify(eol + b) == "\n" + Unify(b)
  {
    assert (eol + b)[|eol|..] == b;
  }

  /** The data of a record is gathered line by line. */
  lemma {:induction false} GatherLine(line: string, b: string, data: string)
    requires OneLine(line)
    ensures Gather(line + "\n" + b, data) == Gather(b, AddLine(data, line))
    ensures line != "" ==> Gather(line, data) == AddLine(data, line)
  {
    var text := line + "\n" + b;
    LineLenIs(text, |line|);
    LineLenIs(line, |line|);
    assert text[..|line|] == line && text[|line| + 1..] == b && line[..|line|] == line;
  }

  /** The data collected so far with more lines of text behind it. */
  function Behind(data: string, texts: seq<string>): string {
    if data == "" then Unlines(FromFirstText(texts)) else Unlines([data] + texts)
  }

  lemma AddLineIs(data: string, f: Field)
    requires AreFields([f])
    ensures AddLine(data, Line(f))
         == if f.Other? then data else (if data == "" then "" else data + "\n") + TrimStart(f.text, Unicode)
  {
    assert f in [f];
    if f.Data? {
      assert Line(f)[0..5] == "data:" && Line(f)[5..] == f.text;
    } else {
      StartsLikeData(f.line);
    }
  }

  lemma StartsLikeData(line: string)
    ensures HasAt(line, "data:", 0) <==> "data:" <= line
  {
  }

  lemma BehindNext(data: string, text: string, texts: seq<string>)
    ensures Behind((if data == "" then "" else data + "\n") + text, texts) == Behind(data, [text] + texts)
    ensures Behind(data, []) == data
  {
    assert ([text] + texts)[1..] == texts;
    assert ([data] + ([text] + texts))[1..] == [text] + texts;
    if data == "" {
      assert "" + text == text;
    } else {
      var both := data + "\n" + text;
      assert ([both] + texts)[1..] == texts;
      if texts == [] {
        assert [text] + texts == [text] && [both] + texts == [both];
        assert Unlines([text]) == text && Unlines([data] + [text]) == data + "\n" + Unlines([text]);
      } else {
        assert Unlines([both] + texts) == both + "\n" + Unlines(texts);
        assert Unlines([text] + texts) == text + "\n" + Unlines(texts);
        assert both + "\n" + Unlines(texts) == data + "\n" + (text + "\n" + Unlines(texts));
      }
    }
  }

  lemma {:induction false} GatherFields(fields: seq<Field>, eol: string, data: string)
    requires IsEol(eol) && fields != [] && AreFields(fields)
    ensures Gather(Unify(Joined(fields, eol)), data) == Behind(data, Texts(fields))
  {
    hide Gather, Unify, AddLine, Unlines, FromFirstText, Behind;
    var f, rest := fields[0], fields[1..];
    assert f in fields && AreFields([f]);
    LineStarts(f);
    AddLineIs(data, f);
    var next := AddLine(data, Line(f));
    if |fields| == 1 {
      UnifyLine(Line(f), "");
      assert Line(f) + "" == Line(f) && Texts(rest) == [];
      assert Unify("") == "" by { NothingUnified(); }
      GatherLine(Line(f), "", data);
      BehindNext(data, "", []);
    } else {
      JoinedStarts(rest, eol);
      UnifyLine(Line(f), eol + Joined(rest, eol));
      UnifyEol(eol, Joined(rest, eol));
      assert Line(f) + eol + Joined(rest, eol) == Line(f) + (eol + Joined(rest, eol));
      assert Line(f) + ("\n" + Unify(Joined(rest, eol))) == Line(f) + "\n" + Unify(Joined(rest, eol));
      GatherLine(Line(f), Unify(Joined(rest, eol)), data);
      GatherFields(rest, eol, next);
    }
    if f.Data? {
      BehindNext(data, TrimStart(f.text, Unicode), Texts(rest));
      BehindNext(next, "", []);
    } else {
      assert [] + Texts(rest) == Texts(rest);
    }
  }

  lemma NothingUnified()
    ensures Unify("") == ""
  {
  }

  /**
    A record of any fields, with any line ending and in front of any stream, is read as the texts of
    its data fields from the first that is not empty, one line each, or not at all if all are empty.
  */
  lemma {:induction false} RecordIsRead(fields: seq<Field>, eol: string, rest: string)
    requires IsEol(eol) && AreFields(fields)
    ensures var payload := Unlines(FromFirstText(Texts(fields)));
      Parse(SentRecord(fields, eol) + rest) == (if payload == "" then [] else [payload]) + Parse(rest)
  {
    hide Parse, FirstBlank, BlankAt, Unlines, FromFirstText, Unify, Gather;
    if fields == [] {
      EndingIsMute(eol, rest);
      BehindNext("", "", []);
      assert [] + Parse(rest) == Parse(rest);
    } else {
      var raw := Joined(fields, eol);
      var buf := raw + (eol + eol);
      SentIsJoined(fields, eol);
      forall i: nat | i < |raw| ensures BlankAt(buf, i) == 0 {
        NoBlankInside(fields, eol, i);
      }
      TwoEndings(raw, eol);
      FirstBlankIs(buf, 0, Some(|raw|));
      TakeRecord(buf, rest);
      assert buf[..|raw|] == raw && buf[|buf|..] + rest == rest;
      GatherFields(fields, eol, "");
    }
  }

  lemma TwoEndings(raw: string, eol: string)
    requires IsEol(eol)
    ensures BlankAt(raw + (eol + eol), |raw|) == |eol + eol|
  {
    BlankAtShift(raw, eol + eol, 0);
  }

  /** Data lines as they are usually sent, with one blank behind the name. */
  function DataLines(lines: seq<string>): seq<Field> {
    seq(|lines|, i requires 0 <= i < |lines| => Data(" " + lines[i]))
  }

  lemma DataLinesAreFields(lines: seq<string>)
    requires forall l | l in lines :: OneLine(l)
    ensures AreFields(DataLines(lines))
  {
    hide OneLine;
    forall f | f in DataLines(lines) ensures OneLine(Line(f)) && f.Data? {
      var i :| 0 <= i < |lines| && f == Data(" " + lines[i]);
      assert lines[i] in lines;
      DataLineIsLine(lines[i]);
    }
  }

  lemma DataLineIsLine(l: string)
    requires OneLine(l)
    ensures OneLine("data:" + (" " + l))
  {
    var s := "data:" + (" " + l);
    forall i | 0 <= i < |s| ensures s[i] != '\r' && s[i] != '\n' {
      if i >= 6 {
        assert s[i] == l[i - 6];
      }
    }
  }

  /** Lines that start with no white space, the first one not empty, come back joined by LF. */
  lemma {:induction false} LinesAreRead(lines: seq<string>, eol: string, rest: string)
    requires IsEol(eol) && lines != [] && lines[0] != ""
    requires forall l | l in lines :: OneLine(l) && (l != "" ==> !IsWhite(l[0], Unicode))
    ensures Parse(SentRecord(DataLines(lines), eol) + rest) == [Unlines(lines)] + Parse(rest)
  {
    hide Parse, SentRecord, DataLines, Texts, AreFields, OneLine, IsWhite;
    PlainTexts(lines);
    DataLinesAreFields(lines);
    RecordIsRead(DataLines(lines), eol, rest);
    assert FromFirstText(lines) == lines;
    assert Unlines(lines) != "";
  }

  lemma {:induction false} PlainTexts(lines: seq<string>)
    requires forall l | l in lines :: l != "" ==> !IsWhite(l[0], Unicode)
    ensures Texts(DataLines(lines)) == lines
  {
    if lines != [] {
      var l, rest := lines[0], lines[1..];
      assert DataLines(lines)[1..] == DataLines(rest);
      PlainTexts(rest);
      assert l in lines && (" " + l)[1..] == l && TrimStart(" " + l, Unicode) == TrimStart(l, Unicode) == l;
      assert lines == [l] + rest;
    }
  }
}
