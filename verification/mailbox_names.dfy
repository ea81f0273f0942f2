/** Mailbox paths as text: escaped names joined by slashes, and split again. */
module MailboxNames {
  import opened Common
  import opened Text

  function Replace(s: string, c: char, with: string): string {
    if s == "" then "" else (if s[0] == c then with else [s[0]]) + Replace(s[1..], c, with)
  }

  function EscapeSegment(segment: string): string {
    Replace(Replace(segment, '\\', "\\\\"), '/', "\\/")
  }

  /** Names from root to leaf as one path. */
  function JoinPath(names: seq<string>): string
    requires names != []
  {
    if |names| == 1 then EscapeSegment(names[0])
    else JoinPath(names[..|names| - 1]) + "/" + EscapeSegment(names[|names| - 1])
  }

  datatype SplitError = EmptyPath | InvalidEscape | EmptySegment | DanglingEscape

  /** The segments of a path of which s is still to be read. */
  function SplitFrom(s: string, segments: seq<string>, segment: string, escaped: bool):
    Result<seq<string>, SplitError>
  {
    if s == "" then
      if escaped then Err(DanglingEscape)
      else if segment == "" then Err(EmptySegment)
      else Ok(segments + [segment])
    else if escaped then
      if s[0] == '/' || s[0] == '\\' then SplitFrom(s[1..], segments, segment + [s[0]], false)
      else Err(InvalidEscape)
    else if s[0] == '\\' then SplitFrom(s[1..], segments, segment, true)
    else if s[0] != '/' then SplitFrom(s[1..], segments, segment + [s[0]], false)
    else if segment == "" then Err(EmptySegment)
    else SplitFrom(s[1..], segments + [segment], "", false)
  }

  function SplitPath(path: string): Result<seq<string>, SplitError> {
    if path == "" then Err(EmptyPath) else SplitFrom(path, [], "", false)
  }

  method SplitMailboxPath(path: string) returns (r: Result<seq<string>, SplitError>)
    ensures r == SplitPath(path)
  {
    if path == "" {
      return Err(EmptyPath);
    }
    var segments: seq<string>, segment, escaped := [], "", false;
    for i := 0 to |path|
      invariant SplitFrom(path[i..], segments, segment, escaped) == SplitPath(path)
    {
      var c := path[i];
      assert path[i..][1..] == path[i + 1..];
      if escaped {
        if c != '/' && c != '\\' {
          return Err(InvalidEscape);
        }
        segment := segment + [c];
        escaped := false;
      } else if c == '\\' {
        escaped := true;
      } else if c == '/' {
        if segment == "" {
          return Err(EmptySegment);
        }
        segments := segments + [segment];
        segment := "";
      } else {
        segment := segment + [c];
      }
    }
    if escaped {
      return Err(DanglingEscape);
    }
    if segment == "" {
      return Err(EmptySegment);
    }
    segments := segments + [segment];
    return Ok(segments);
  }

  // ---- splitting and joining ----

  function EscapeChar(c: char): string {
    if c == '\\' || c == '/' then ['\\', c] else [c]
  }

  lemma {:induction false} ReplaceAppend(a: string, b: string, c: char, with: string)
    ensures Replace(a + b, c, with) == Replace(a, c, with) + Replace(b, c, with)
  {
    if a == "" {
      assert a + b == b;
    } else {
      assert (a + b)[1..] == a[1..] + b;
      ReplaceAppend(a[1..], b, c, with);
    }
  }

  lemma EscapeAppend(a: string, b: string)
    ensures EscapeSegment(a + b) == EscapeSegment(a) + EscapeSegment(b)
  {
    ReplaceAppend(a, b, '\\', "\\\\");
    ReplaceAppend(Replace(a, '\\', "\\\\"), Replace(b, '\\', "\\\\"), '/', "\\/");
  }

  lemma EscapeOne(c: char)
    ensures EscapeSegment([c]) == EscapeChar(c)
  {
    assert Replace([c], '\\', "\\\\") == if c == '\\' then "\\\\" else [c];
    assert "\\\\"[1..] == "\\" && "\\"[1..] == "" && [c][1..] == "";
    assert Replace("\\\\", '/', "\\/") == "\\\\";
  }

  /** Reading an escaped name adds the name to the segment. */
  lemma {:induction false} ReadsEscaped(name: string, rest: string, segments: seq<string>, segment: string)
    ensures SplitFrom(EscapeSegment(name) + rest, segments, segment, false)
         == SplitFrom(rest, segments, segment + name, false)
    decreases |name|
  {
    if name == "" {
      assert EscapeSegment(name) + rest == rest && segment + name == segment;
    } else {
      var c, tail := name[0], EscapeSegment(name[1..]) + rest;
      assert name == [c] + name[1..];
      EscapeAppend([c], name[1..]);
      EscapeOne(c);
      Associate(EscapeChar(c), EscapeSegment(name[1..]), rest);
      ReadsChar(c, tail, segments, segment);
      ReadsEscaped(name[1..], rest, segments, segment + [c]);
      Associate(segment, [c], name[1..]);
    }
  }

  lemma {:induction false} ReadsChar(c: char, tail: string, segments: seq<string>, segment: string)
    ensures SplitFrom(EscapeChar(c) + tail, segments, segment, false) == SplitFrom(tail, segments, segment + [c], false)
  {
    var s := EscapeChar(c) + tail;
    if c == '\\' || c == '/' {
      assert s[1..] == [c] + tail && ([c] + tail)[1..] == tail;
    } else {
      assert s[1..] == tail;
    }
  }

  predicate NoneEmpty(names: seq<string>) {
    forall i | 0 <= i < |names| :: names[i] != ""
  }

  lemma {:induction false} ReadsSlash(tail: string, segments: seq<string>, segment: string)
    requires segment != ""
    ensures SplitFrom("/" + tail, segments, segment, false) == SplitFrom(tail, segments + [segment], "", false)
  {
    assert ("/" + tail)[1..] == tail;
  }

  lemma {:induction false} JoinMore(names: seq<string>, last: string, rest: string)
    requires names != []
    ensures JoinPath(names + [last]) + rest == JoinPath(names) + ("/" + (EscapeSegment(last) + rest))
  {
    assert (names + [last])[..|names|] == names;
    Associate4(JoinPath(names), "/", EscapeSegment(last), rest);
  }

  /** Reading a joined path reads its names, until one is empty. */
  lemma {:induction false} ReadsJoined(names: seq<string>, last: string, rest: string)
    requires NoneEmpty(names)
    ensures SplitFrom(JoinPath(names + [last]) + rest, [], "", false) == SplitFrom(rest, names, last, false)
    decreases |names|
  {
    hide SplitFrom, EscapeSegment;
    assert "" + last == last;
    if names == [] {
      assert names + [last] == [last];
      ReadsEscaped(last, rest, [], "");
    } else {
      var fewer, prev := names[..|names| - 1], names[|names| - 1];
      var tail := EscapeSegment(last) + rest;
      assert names == fewer + [prev];
      ReadsJoined(fewer, prev, "/" + tail);
      JoinMore(names, last, rest);
      ReadsSlash(tail, fewer, prev);
      ReadsEscaped(last, rest, names, "");
    }
  }

  lemma {:induction false} StopsAtEmpty(names: seq<string>, last: string, rest: string)
    requires !NoneEmpty(names + [last]) && (rest == "" || rest[0] == '/')
    ensures SplitFrom(JoinPath(names + [last]) + rest, [], "", false) == Err(EmptySegment)
    decreases |names|
  {
    if NoneEmpty(names) {
      assert (names + [last])[|names|] == last;
      assert forall i | 0 <= i < |names| :: (names + [last])[i] == names[i];
      ReadsJoined(names, last, rest);
    } else {
      var fewer, prev := names[..|names| - 1], names[|names| - 1];
      assert names == fewer + [prev];
      StopsAtEmpty(fewer, prev, "/" + (EscapeSegment(last) + rest));
      JoinMore(names, last, rest);
    }
  }

  /** A joined path splits into its names exactly when none is empty. */
  lemma {:induction false} SplitUndoesJoin(names: seq<string>)
    requires names != []
    ensures NoneEmpty(names) ==> SplitPath(JoinPath(names)) == Ok(names)
    ensures !NoneEmpty(names) ==> SplitPath(JoinPath(names)).Err?
  {
    var fewer, last := names[..|names| - 1], names[|names| - 1];
    assert names == fewer + [last] && JoinPath(names) + "" == JoinPath(names);
    if NoneEmpty(names) {
      ReadsJoined(fewer, last, "");
    } else {
      StopsAtEmpty(fewer, last, "");
    }
  }

  /** What has been read, escaped again. */
  function Read(segments: seq<string>, segment: string, escaped: bool): string {
    JoinPath(segments + [segment]) + if escaped then "\\" else ""
  }

  lemma {:induction false} ReadMore(segments: seq<string>, segment: string, c: char)
    ensures JoinPath(segments + [segment + [c]]) == JoinPath(segments + [segment]) + EscapeChar(c)
  {
    EscapeAppend(segment, [c]);
    EscapeOne(c);
    assert (segments + [segment])[..|segments|] == segments == (segments + [segment + [c]])[..|segments|];
  }

  lemma {:induction false} ReadNext(segments: seq<string>, segment: string)
    ensures JoinPath(segments + [segment] + [""]) == JoinPath(segments + [segment]) + "/"
  {
    var names := segments + [segment];
    assert (names + [""])[..|names|] == names;
    assert JoinPath(names) + "/" + EscapeSegment("") == JoinPath(names) + "/";
  }

  lemma Regroup(was: string, seen: string, c: char, rest: string)
    ensures was + seen + ([c] + rest) == was + (seen + [c]) + rest
    ensures was + seen + ([c] + rest) == was + (seen + [c]) + "" + rest
  {
  }

  lemma {:induction false} JoinUndoesSplitFrom(s: string, segments: seq<string>, segment: string, escaped: bool)
    requires SplitFrom(s, segments, segment, escaped).Ok? && NoneEmpty(segments)
    ensures var names := SplitFrom(s, segments, segment, escaped).value;
      names != [] && NoneEmpty(names) && JoinPath(names) == Read(segments, segment, escaped) + s
    decreases |s|
  {
    hide JoinPath;
    var was := JoinPath(segments + [segment]);
    if s == "" {
      assert was + "" + "" == was;
    } else {
      var c, rest := s[0], s[1..];
      assert s == [c] + rest;
      Regroup(was, if escaped then "\\" else "", c, rest);
      assert "" + [c] == [c] && "\\" + [c] == ['\\', c];
      if escaped {
        JoinUndoesSplitFrom(rest, segments, segment + [c], false);
        ReadMore(segments, segment, c);
      } else if c == '\\' {
        JoinUndoesSplitFrom(rest, segments, segment, true);
      } else if c == '/' {
        JoinUndoesSplitFrom(rest, segments + [segment], "", false);
        ReadNext(segments, segment);
      } else {
        JoinUndoesSplitFrom(rest, segments, segment + [c], false);
        ReadMore(segments, segment, c);
      }
    }
  }

  /** Every path that splits is the joined path of what it splits into. */
  lemma JoinUndoesSplit(path: string)
    requires SplitPath(path).Ok?
    ensures var names := SplitPath(path).value;
      names != [] && NoneEmpty(names) && JoinPath(names) == path
  {
    JoinUndoesSplitFrom(path, [], "", false);
    assert EscapeSegment("") == "" && [] + [""] == [""];
    assert "" + "" + path == path;
  }

  // ---- paths are told apart ----

  /** The names in a joined path, empty ones included; `name` is the one begun. */
  function NamesIn(s: string, name: string): seq<string>
    decreases |s|
  {
    if s == "" then [name]
    else if s[0] == '\\' && |s| > 1 then NamesIn(s[2..], name + [s[1]])
    else if s[0] == '/' then [name] + NamesIn(s[1..], "")
    else NamesIn(s[1..], name + [s[0]])
  }

  lemma {:induction false} NamesInChar(c: char, tail: string, name: string)
    ensures NamesIn(EscapeChar(c) + tail, name) == NamesIn(tail, name + [c])
  {
    var s := EscapeChar(c) + tail;
    assert s[|EscapeChar(c)|..] == tail;
  }

  lemma {:induction false} NamesInEscaped(segment: string, rest: string, name: string)
    ensures NamesIn(EscapeSegment(segment) + rest, name) == NamesIn(rest, name + segment)
    decreases |segment|
  {
    hide NamesIn;
    if segment == "" {
      assert EscapeSegment(segment) + rest == rest && name + segment == name;
    } else {
      var c := segment[0];
      assert segment == [c] + segment[1..];
      EscapeAppend([c], segment[1..]);
      EscapeOne(c);
      Associate(EscapeChar(c), EscapeSegment(segment[1..]), rest);
      NamesInChar(c, EscapeSegment(segment[1..]) + rest, name);
      NamesInEscaped(segment[1..], rest, name + [c]);
      Associate(name, [c], segment[1..]);
    }
  }

  lemma {:induction false} NamesInSlash(tail: string, name: string)
    ensures NamesIn("/" + tail, name) == [name] + NamesIn(tail, "")
  {
    assert ("/" + tail)[1..] == tail;
  }

  lemma {:induction false} NamesInJoined(names: seq<string>, last: string, rest: string)
    ensures NamesIn(JoinPath(names + [last]) + rest, "") == names + NamesIn(rest, last)
    decreases |names|
  {
    hide NamesIn, EscapeSegment;
    assert "" + last == last;
    if names == [] {
      assert names + [last] == [last] && [] + NamesIn(rest, last) == NamesIn(rest, last);
      NamesInEscaped(last, rest, "");
    } else {
      var fewer, prev := names[..|names| - 1], names[|names| - 1];
      var tail := EscapeSegment(last) + rest;
      assert names == fewer + [prev];
      NamesInJoined(fewer, prev, "/" + tail);
      JoinMore(names, last, rest);
      NamesInSlash(tail, prev);
      NamesInEscaped(last, rest, "");
      Associate(fewer, [prev], NamesIn(rest, last));
    }
  }

  /** Different lists of names, empty names or not, never make the same path. */
  lemma {:induction false} JoinTellsApart(a: seq<string>, b: seq<string>)
    requires a != [] && b != [] && JoinPath(a) == JoinPath(b)
    ensures a == b
  {
    NamesInPath(a);
    NamesInPath(b);
  }

  lemma {:induction false} NamesInPath(names: seq<string>)
    requires names != []
    ensures NamesIn(JoinPath(names), "") == names
  {
    var fewer, last := names[..|names| - 1], names[|names| - 1];
    assert names == fewer + [last] && JoinPath(names) + "" == JoinPath(names);
    NamesInJoined(fewer, last, "");
    assert NamesIn("", last) == [last];
  }
}
