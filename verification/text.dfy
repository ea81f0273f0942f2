/** Text and byte strings. A byte is written as the character with its value. */
module Text {
  import opened Common

  // What trimming removes: from strings, and from byte slices.
  datatype Whitespace = Unicode | Ascii

  predicate IsWhite(c: char, white: Whitespace) {
    match white
    case Unicode =>
      '\t' <= c <= '\r' || c == ' ' || c == '\U{85}' || c == '\U{A0}' || c == '\U{1680}'
      || '\U{2000}' <= c <= '\U{200A}' || c == '\U{2028}' || c == '\U{2029}'
      || c == '\U{202F}' || c == '\U{205F}' || c == '\U{3000}'
    case Ascii =>
      c == ' ' || c == '\t' || c == '\n' || c == '\U{0C}' || c == '\r'
  }

  function TrimStart(s: string, white: Whitespace): (r: string)
    ensures |r| <= |s|
  {
    if s != [] && IsWhite(s[0], white) then TrimStart(s[1..], white) else s
  }

  function TrimEnd(s: string, white: Whitespace): (r: string)
    ensures |r| <= |s|
  {
    if s != [] && IsWhite(s[|s| - 1], white) then TrimEnd(s[..|s| - 1], white) else s
  }

  function Trim(s: string, white: Whitespace): (r: string)
    ensures |r| <= |s|
  {
    TrimStart(TrimEnd(s, white), white)
  }

  predicate Trimmed(s: string, white: Whitespace) {
    s != [] ==> !IsWhite(s[0], white) && !IsWhite(s[|s| - 1], white)
  }

  lemma {:induction false} TrimStartFacts(s: string, white: Whitespace)
    ensures var r := TrimStart(s, white);
      && r == s[|s| - |r|..] && (r != [] ==> !IsWhite(r[0], white))
      && forall i | 0 <= i < |s| - |r| :: IsWhite(s[i], white)
  {
    if s != [] && IsWhite(s[0], white) {
      TrimStartFacts(s[1..], white);
      assert forall i | 1 <= i < |s| :: s[i] == s[1..][i - 1];
    }
  }

  lemma {:induction false} TrimEndFacts(s: string, white: Whitespace)
    ensures var r := TrimEnd(s, white);
      && r == s[..|r|] && (r != [] ==> !IsWhite(r[|r| - 1], white))
      && forall i | |r| <= i < |s| :: IsWhite(s[i], white)
  {
    if s != [] && IsWhite(s[|s| - 1], white) {
      TrimEndFacts(s[..|s| - 1], white);
    }
  }

  /** r is what stands in s from position i, with nothing but white around it. */
  predicate TrimsTo(s: string, white: Whitespace, i: nat, r: string) {
    && Trimmed(r, white) && i + |r| <= |s|
    && (forall k | 0 <= k < |r| :: s[i + k] == r[k])
    && (forall k | 0 <= k < i :: IsWhite(s[k], white))
    && (forall k | i + |r| <= k < |s| :: IsWhite(s[k], white))
  }

  lemma TrimIs(s: string, white: Whitespace, i: nat, r: string)
    requires TrimsTo(s, white, i, r)
    ensures Trim(s, white) == r
  {
    TrimEndFacts(s, white);
    TrimStartFacts(TrimEnd(s, white), white);
    var e := |TrimEnd(s, white)|;
    if r != [] {
      assert s[i + 0] == r[0] && s[i + (|r| - 1)] == r[|r| - 1];
      assert e == i + |r|;
      var b := |s[..e]| - |Trim(s, white)|;
      assert b < e ==> !IsWhite(s[b], white);
      assert b == i;
    }
  }

  lemma TrimBounds(s: string, white: Whitespace) returns (i: nat)
    ensures TrimsTo(s, white, i, Trim(s, white))
  {
    var e := TrimEnd(s, white);
    TrimEndFacts(s, white);
    TrimStartFacts(e, white);
    i := |e| - |Trim(s, white)|;
    assert forall k | 0 <= k < i :: s[k] == e[k];
  }

  lemma TrimIsTrimmed(s: string, white: Whitespace)
    ensures Trimmed(Trim(s, white), white)
  {
    var _ := TrimBounds(s, white);
  }

  /** White characters at the ends do not matter. */
  lemma TrimAround(s: string, white: Whitespace, i: nat, j: nat)
    requires i <= j <= |s|
    requires forall k | 0 <= k < i :: IsWhite(s[k], white)
    requires forall k | j <= k < |s| :: IsWhite(s[k], white)
    ensures Trim(s, white) == Trim(s[i..j], white)
  {
    hide IsWhite, Trim;
    var t := s[i..j];
    var r := Trim(t, white);
    var b := TrimBounds(t, white);
    forall k | 0 <= k < |r| ensures s[i + b + k] == r[k] {
      assert t[b + k] == r[k];
    }
    forall k | 0 <= k < i + b ensures IsWhite(s[k], white) {
      assert k >= i ==> IsWhite(t[k - i], white);
    }
    forall k | i + b + |r| <= k < |s| ensures IsWhite(s[k], white) {
      assert k < j ==> IsWhite(t[k - i], white);
    }
    TrimIs(s, white, i + b, r);
  }

  function LowerChar(c: char): char {
    if 'A' <= c <= 'Z' then c + 32 as char else c
  }

  /** ASCII lower case. */
  function Lower(s: string): (r: string)
    ensures |r| == |s| && forall i | 0 <= i < |s| :: r[i] == LowerChar(s[i])
  {
    seq(|s|, i requires 0 <= i < |s| => LowerChar(s[i]))
  }

  predicate HasAt(s: string, pat: string, i: nat) {
    i + |pat| <= |s| && s[i..i + |pat|] == pat
  }

  predicate Contains(s: string, pat: string) {
    exists i | 0 <= i <= |s| :: HasAt(s, pat, i)
  }

  /** The first occurrence of pat at or after position from. */
  function Find(s: string, pat: string, from: nat): (r: Option<nat>)
    ensures r.Some? ==> from <= r.value && r.value + |pat| <= |s|
    decreases |s| - from
  {
    if HasAt(s, pat, from) then Some(from)
    else if from >= |s| then None
    else Find(s, pat, from + 1)
  }

  lemma {:induction false} FindIsFirst(s: string, pat: string, from: nat)
    ensures var r := Find(s, pat, from);
      && (r.Some? ==> HasAt(s, pat, r.value) && forall i | from <= i < r.value :: !HasAt(s, pat, i))
      && (r.None? ==> forall i | from <= i :: !HasAt(s, pat, i))
    decreases |s| - from
  {
    if !HasAt(s, pat, from) && from < |s| {
      FindIsFirst(s, pat, from + 1);
    }
  }

  /** An occurrence with none before it is what Find returns. */
  lemma {:induction false} FindsAt(s: string, pat: string, from: nat, at: nat)
    requires from <= at && HasAt(s, pat, at)
    requires forall i | from <= i < at :: !HasAt(s, pat, i)
    ensures Find(s, pat, from) == Some(at)
  {
    FindIsFirst(s, pat, from);
  }

  function Digit(n: nat): char
    requires n < 10
  {
    '0' + n as char
  }

  /** The decimal text of a number. */
  function Decimal(n: int): string
    decreases n < 0, if n < 0 then -n else n
  {
    if n < 0 then "-" + Decimal(-n)
    else if n < 10 then [Digit(n)]
    else Decimal(n / 10) + [Digit(n % 10)]
  }

  // ---- lines ----

  /** Length of the text before its first LF. */
  function LineLen(text: string): (n: nat)
    ensures n <= |text|
  {
    if text == "" || text[0] == '\n' then 0 else 1 + LineLen(text[1..])
  }

  predicate IsLine(s: string) {
    '\n' !in s
  }

  predicate AreLines(ls: seq<string>) {
    forall l | l in ls :: IsLine(l)
  }

  /** The pieces between LFs, the piece after the last one included. */
  function Lines(text: string): (ls: seq<string>)
    ensures ls != []
  {
    var n := LineLen(text);
    if n < |text| then [text[..n]] + Lines(text[n + 1..]) else [text]
  }

  /** The pieces put together again. */
  function Unlines(ls: seq<string>): string {
    if ls == [] then "" else if |ls| == 1 then ls[0] else ls[0] + "\n" + Unlines(ls[1..])
  }

  lemma {:induction false} LineLenIs(text: string, n: nat)
    requires n <= |text| && (n < |text| ==> text[n] == '\n')
    requires forall i | 0 <= i < n :: text[i] != '\n'
    ensures LineLen(text) == n
  {
    if n > 0 {
      LineLenIs(text[1..], n - 1);
    }
  }

  lemma {:induction false} LineLenStops(text: string)
    ensures var n := LineLen(text);
      (n < |text| ==> text[n] == '\n') && forall i | 0 <= i < n :: text[i] != '\n'
  {
    if text != "" && text[0] != '\n' {
      LineLenStops(text[1..]);
      assert forall i | 1 <= i < |text| :: text[i] == text[1..][i - 1];
    }
  }

  /** A line in front of a text is the text's first piece. */
  lemma {:induction false} LinesCons(line: string, rest: string)
    requires IsLine(line)
    ensures Lines(line + "\n" + rest) == [line] + Lines(rest)
  {
    var text := line + "\n" + rest;
    LineLenIs(text, |line|);
    assert text[..|line|] == line && text[|line| + 1..] == rest;
  }

  lemma {:induction false} LinesOfLine(line: string)
    requires IsLine(line)
    ensures Lines(line) == [line]
  {
    LineLenIs(line, |line|);
  }

  lemma {:induction false} UnlinesOfLines(text: string)
    ensures Unlines(Lines(text)) == text && AreLines(Lines(text))
    decreases |text|
  {
    var n := LineLen(text);
    LineLenStops(text);
    if n < |text| {
      UnlinesOfLines(text[n + 1..]);
      assert text == text[..n] + "\n" + text[n + 1..];
    }
  }

  lemma {:induction false} LinesOfUnlines(ls: seq<string>)
    requires ls != [] && AreLines(ls)
    ensures Lines(Unlines(ls)) == ls
  {
    if |ls| == 1 {
      LinesOfLine(ls[0]);
    } else {
      LinesOfUnlines(ls[1..]);
      LinesCons(ls[0], Unlines(ls[1..]));
    }
  }

  lemma {:induction false} LinesAppend(a: string, b: string)
    ensures Lines(a + "\n" + b) == Lines(a) + Lines(b)
    decreases |a|
  {
    var n := LineLen(a);
    LineLenStops(a);
    if n == |a| {
      LinesCons(a, b);
    } else {
      var line, rest := a[..n], a[n + 1..];
      assert a + "\n" + b == line + "\n" + (rest + "\n" + b);
      LinesCons(line, rest + "\n" + b);
      LinesAppend(rest, b);
    }
  }
}
