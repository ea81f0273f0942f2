/** Signing a mail per RFC 3156 section 5, and taking the signed mail apart again. */
module PgpMime {
  import opened Common
  import opened Text

  const CRLF := "\r\n"

  // ---- line endings ----

  /** The lines of a text whose lines end in CR, LF or CRLF, as they come. */
  function Breaks(s: string): (ls: seq<string>)
    ensures ls != []
  {
    if s == "" then [""]
    else if s[0] == '\r' && |s| > 1 && s[1] == '\n' then [""] + Breaks(s[2..])
    else if s[0] == '\r' || s[0] == '\n' then [""] + Breaks(s[1..])
    else var ls := Breaks(s[1..]); [[s[0]] + ls[0]] + ls[1..]
  }

  function Joined(ls: seq<string>): string
    requires ls != []
  {
    if |ls| == 1 then ls[0] else ls[0] + CRLF + Joined(ls[1..])
  }

  /** Every line ends in CRLF. */
  function Normalized(s: string): string {
    Joined(Breaks(s))
  }

  predicate Plain(s: string) {
    '\r' !in s && '\n' !in s
  }

  /** No CR without its LF, no LF without its CR. */
  predicate OnlyCrlf(s: string) {
    && (forall i | 0 <= i < |s| && s[i] == '\r' :: i + 1 < |s| && s[i + 1] == '\n')
    && (forall i | 0 <= i < |s| && s[i] == '\n' :: i > 0 && s[i - 1] == '\r')
  }

  lemma Pushed(out: string)
    ensures out + ['\r'] + ['\n'] == out + CRLF
  {
    assert CRLF == ['\r'] + ['\n'];
  }

  method NormalizeCrlf(data: string) returns (out: string)
    ensures out == Normalized(data)
  {
    hide Normalized;
    out := "";
    var i := 0;
    while i < |data|
      invariant 0 <= i <= |data|
      invariant out + Normalized(data[i..]) == Normalized(data)
    {
      var b := data[i];
      NormalizedFirst(data[i..]);
      assert Rest(data[i..]) == data[i + |data[i..]| - |Rest(data[i..])|..];
      ghost var piece := if b == '\r' || b == '\n' then CRLF else [b];
      Associate(out, piece, Normalized(Rest(data[i..])));
      if b == '\r' {
        Pushed(out);
        out := out + ['\r'];
        out := out + ['\n'];
        if i + 1 < |data| && data[i + 1] == '\n' {
          i := i + 1;
        }
      } else if b == '\n' {
        Pushed(out);
        out := out + ['\r'];
        out := out + ['\n'];
      } else {
        out := out + [b];
      }
      i := i + 1;
    }
    assert data[i..] == "" && out + "" == out;
    NothingNormalized();
  }

  lemma NothingNormalized()
    ensures Normalized("") == ""
  {
  }

  /** What is left after the first character or the first CRLF. */
  function Rest(s: string): string
    requires s != ""
  {
    if s[0] == '\r' && |s| > 1 && s[1] == '\n' then s[2..] else s[1..]
  }

  lemma NormalizedFirst(s: string)
    requires s != ""
    ensures Normalized(s) == (if s[0] == '\r' || s[0] == '\n' then CRLF else [s[0]]) + Normalized(Rest(s))
  {
    if s[0] != '\r' && s[0] != '\n' {
      var ls := Breaks(s[1..]);
      assert Breaks(s)[1..] == ls[1..];
    } else {
      assert Breaks(s)[1..] == Breaks(Rest(s));
      assert "" + CRLF == CRLF;
    }
  }

  lemma {:induction false} BreaksArePlain(s: string)
    ensures forall l | l in Breaks(s) :: Plain(l)
    decreases |s|
  {
    if s != "" {
      var ls := Breaks(Rest(s));
      BreaksArePlain(Rest(s));
      assert Plain(ls[0]);
      if s[0] != '\r' && s[0] != '\n' {
        assert Breaks(s) == [[s[0]] + ls[0]] + ls[1..];
        assert Plain([s[0]] + ls[0]);
      }
    }
  }

  lemma {:induction false} BreaksOfLine(line: string, rest: string)
    requires Plain(line)
    ensures Breaks(line + CRLF + rest) == [line] + Breaks(rest)
  {
    var s := line + CRLF + rest;
    if line == "" {
      assert s[2..] == rest;
    } else {
      assert s[0] == line[0] && line[0] in line && Plain(line[1..]);
      BreaksOfLine(line[1..], rest);
      assert s[1..] == line[1..] + CRLF + rest;
      assert [line[0]] + line[1..] == line;
    }
  }

  lemma {:induction false} BreaksOfPlain(line: string)
    requires Plain(line)
    ensures Breaks(line) == [line]
  {
    if line != "" {
      assert line[0] in line;
      BreaksOfPlain(line[1..]);
      assert [line[0]] + line[1..] == line;
    }
  }

  lemma {:induction false} BreaksOfJoined(ls: seq<string>)
    requires ls != [] && forall l | l in ls :: Plain(l)
    ensures Breaks(Joined(ls)) == ls
  {
    if |ls| == 1 {
      BreaksOfPlain(ls[0]);
    } else {
      BreaksOfJoined(ls[1..]);
      BreaksOfLine(ls[0], Joined(ls[1..]));
    }
  }

  lemma {:induction false} JoinedIsOnlyCrlf(ls: seq<string>)
    requires ls != [] && forall l | l in ls :: Plain(l)
    ensures OnlyCrlf(Joined(ls))
  {
    assert Plain(ls[0]);
    if |ls| > 1 {
      JoinedIsOnlyCrlf(ls[1..]);
      LineThenCrlf(ls[0], Joined(ls[1..]));
    }
  }

  lemma LineThenCrlf(line: string, rest: string)
    requires Plain(line) && OnlyCrlf(rest)
    ensures OnlyCrlf(line + CRLF + rest)
  {
    var s := line + CRLF + rest;
    var n := |line| + 2;
    assert forall i | n <= i < |s| :: s[i] == rest[i - n];
  }

  /** The lines stay the same, and every one of them now ends in CRLF. */
  lemma {:induction false} NormalizedKeepsLines(s: string)
    ensures Breaks(Normalized(s)) == Breaks(s) && OnlyCrlf(Normalized(s))
  {
    BreaksArePlain(s);
    BreaksOfJoined(Breaks(s));
    JoinedIsOnlyCrlf(Breaks(s));
  }

  lemma NormalizedTwice(s: string)
    ensures Normalized(Normalized(s)) == Normalized(s)
  {
    NormalizedKeepsLines(s);
  }

  lemma {:induction false} OnlyCrlfIsNormal(s: string)
    requires OnlyCrlf(s)
    ensures Normalized(s) == s
    decreases |s|
  {
    if s != "" {
      var n := |s| - |Rest(s)|;
      assert s[0] != '\n';
      assert forall i | n <= i < |s| :: Rest(s)[i - n] == s[i];
      OnlyCrlfIsNormal(Rest(s));
      NormalizedFirst(s);
      assert s == s[..n] + Rest(s);
    }
  }

  /** Exactly the texts without a bare CR or LF are left alone. */
  lemma NormalIffOnlyCrlf(s: string)
    ensures Normalized(s) == s <==> OnlyCrlf(s)
  {
    NormalizedKeepsLines(s);
    if OnlyCrlf(s) {
      OnlyCrlfIsNormal(s);
    }
  }
}
