/** What injecting status headers leaves of a message, and what flag strings say. */
module MboxHeaders {
  import opened Common
  import opened Text
  import opened Mbox
  import opened MboxStatus

  // ---- the rest of the message ----

  predicate AreHeaders(hs: seq<string>) {
    forall h | h in hs :: IsLine(h) && !Blank(h)
  }

  /** The lines that are no status headers. */
  function Others(hs: seq<string>): seq<string> {
    if hs == [] then []
    else (if IsHeader(hs[0], "Status") || IsHeader(hs[0], "X-Status") then [] else [hs[0]]) + Others(hs[1..])
  }

  lemma BlankIsEmpty(line: string)
    ensures WithoutCr(line) == "" <==> Blank(line)
  {
  }

  /** Header lines, whatever they are, and what follows them from the first blank line on. */
  lemma {:induction false} InjectedLinesAre(hs: seq<string>, rest: seq<string>, block: string)
    requires AreHeaders(hs) && (rest != [] ==> Blank(rest[0]))
    ensures InjectLines(hs + rest, block) == AllLines(Others(hs)) + (block + AllLines(rest))
  {
    hide IsHeader;
    if hs == [] {
      assert hs + rest == rest && "" + (block + AllLines(rest)) == block + AllLines(rest);
      if rest == [] {
        assert block + "" == block;
      } else {
        BlankIsNoHeader(rest[0]);
        BlankIsEmpty(rest[0]);
      }
    } else {
      var h := hs[0];
      assert h in hs && (hs + rest)[0] == h && (hs + rest)[1..] == hs[1..] + rest;
      InjectedLinesAre(hs[1..], rest, block);
      BlankIsEmpty(h);
      StatusHeaderBeforeCr(h, "Status");
      StatusHeaderBeforeCr(h, "X-Status");
      var others := Others(hs[1..]);
      if IsHeader(h, "Status") || IsHeader(h, "X-Status") {
        assert [] + others == others;
      } else {
        assert ([h] + others)[1..] == others;
        Associate(h + "\n", AllLines(others), block + AllLines(rest));
      }
    }
  }

  lemma BlankIsNoHeader(line: string)
    requires Blank(line)
    ensures !IsStatusHeader(WithoutCr(line))
  {
    BlankIsEmpty(line);
    assert Colon("").None?;
  }

  lemma {:induction false} LinesOfHeaders(hs: seq<string>, rest: string)
    requires AreHeaders(hs)
    ensures Lines(AllLines(hs) + rest) == hs + Lines(rest)
  {
    if hs == [] {
      assert "" + rest == rest && hs + Lines(rest) == Lines(rest);
    } else {
      assert hs[0] in hs;
      LinesOfHeaders(hs[1..], rest);
      LinesCons(hs[0], AllLines(hs[1..]) + rest);
      assert AllLines(hs) + rest == hs[0] + "\n" + (AllLines(hs[1..]) + rest);
      assert [hs[0]] + (hs[1..] + Lines(rest)) == hs + Lines(rest);
    }
  }

  /**
    A message keeps its header lines, but for old status headers, and its body; the new status
    headers stand at the end of the header section.
  */
  lemma {:induction false} InjectionKeepsMessage(hs: seq<string>, blank: string, body: string, flags: string)
    requires AreHeaders(hs) && Blank(blank)
    ensures Injected(AllLines(hs) + (blank + "\n" + body), flags)
         == AllLines(Others(hs)) + (StatusBlock(flags) + (blank + "\n" + body + "\n"))
  {
    hide InjectLines, StatusBlock, AllLines;
    var rest := blank + "\n" + body;
    LinesOfHeaders(hs, rest);
    LinesCons(blank, body);
    assert Lines(rest)[0] == blank;
    InjectedLinesAre(hs, Lines(rest), StatusBlock(flags));
    LinesTogether(rest);
  }

  /** Without a blank line they come last. */
  lemma {:induction false} InjectionWithoutBody(hs: seq<string>, flags: string)
    requires AreHeaders(hs) && hs != []
    ensures Injected(Unlines(hs), flags) == AllLines(Others(hs)) + StatusBlock(flags)
  {
    hide StatusBlock;
    LinesOfUnlines(hs);
    InjectedLinesAre(hs, [], StatusBlock(flags));
    assert hs + [] == hs && StatusBlock(flags) + "" == StatusBlock(flags);
  }

  lemma {:induction false} LinesTogether(s: string)
    ensures AllLines(Lines(s)) == s + "\n"
  {
    UnlinesOfLines(s);
    AllLinesIsUnlines(Lines(s));
  }

  /** Lines that are no status headers are all kept, in order; a status header anywhere goes. */
  lemma {:induction false} OthersAre(a: seq<string>, line: string, b: seq<string>)
    ensures Others(a + [line] + b)
      == Others(a) + (if IsHeader(line, "Status") || IsHeader(line, "X-Status") then [] else [line]) + Others(b)
    decreases |a|
  {
    var all := a + [line] + b;
    if a == [] {
      assert all[0] == line && all[1..] == b;
    } else {
      assert all[0] == a[0] && all[1..] == a[1..] + [line] + b;
      OthersAre(a[1..], line, b);
    }
  }

  lemma {:induction false} OthersAreAll(hs: seq<string>)
    requires forall h | h in hs :: !IsHeader(h, "Status") && !IsHeader(h, "X-Status")
    ensures Others(hs) == hs
  {
    if hs != [] {
      assert hs[0] in hs;
      OthersAreAll(hs[1..]);
    }
  }

  /** The block as text. */
  lemma StatusBlockIs(flags: string)
    ensures var s, x := StatusLetters(flags), XStatusLetters(flags);
      StatusBlock(flags) == "Status: " + s + "\n" + (if x == "" then "" else "X-Status: " + x + "\n")
  {
    hide StatusLetters, XStatusLetters;
    var s, x := StatusLetters(flags), XStatusLetters(flags);
    var first, second := "Status: " + s, "X-Status: " + x;
    assert "Status" + ": " == "Status: " && "X-Status" + ": " == "X-Status: ";
    TerminatedOne([], first);
    assert [] + [first] == [first];
    if x != "" {
      TerminatedOne([first], second);
      assert [first] + [second] == [first, second];
    }
  }

  lemma {:induction false} TerminatedOne(ls: seq<string>, l: string)
    ensures Terminated(ls + [l]) == Terminated(ls) + l + "\n" && Terminated([]) == ""
  {
    assert (ls + [l])[..|ls|] == ls;
  }

  lemma LettersAre(flags: string)
    ensures StatusLetters(flags) == if Contains(flags, "\\Seen") then "RO" else "O"
    ensures XStatusLetters(flags)
      == (if Contains(flags, "\\Flagged") then "F" else "") + (if Contains(flags, "\\Answered") then "A" else "")
         + (if Contains(flags, "\\Deleted") then "D" else "") + (if Contains(flags, "\\Draft") then "T" else "")
  {
    assert "R" + "O" == "RO" && "" + "O" == "O";
  }

  // ---- reading a header ----

  predicate AreOtherHeaders(hs: seq<string>, name: string) {
    forall h | h in hs :: !Blank(h) && !IsHeader(h, name)
  }

  /** The first header line of the name counts, its value without the white space around it; lines
      behind the first blank line do not. */
  lemma {:induction false} HeaderInIs(before: seq<string>, line: string, after: seq<string>, name: string)
    requires AreOtherHeaders(before, name)
    ensures !Blank(line) && IsHeader(line, name) ==>
      HeaderIn(before + [line] + after, name) == Trim(line[Colon(line).value + 1..], Ascii)
    ensures Blank(line) ==> HeaderIn(before + [line] + after, name) == ""
    ensures HeaderIn(before, name) == ""
    decreases |before|
  {
    hide IsHeader;
    var all := before + [line] + after;
    if before == [] {
      assert all[0] == line;
    } else {
      assert before[0] in before && all[0] == before[0] && all[1..] == before[1..] + [line] + after;
      HeaderInIs(before[1..], line, after, name);
    }
  }

  /** A header line has the name in front of its first colon, in any case and with any white space
      around it. */
  lemma HeaderNameIs(before: string, name: string, after: string, value: string, other: string)
    requires ':' !in before + name + after && Trimmed(name, Ascii)
    requires forall c | c in before + after :: IsWhite(c, Ascii)
    ensures var line := before + name + after + ":" + value;
      && (IsHeader(line, other) <==> Lower(name) == Lower(other))
      && Colon(line) == Some(|before + name + after|) && line[Colon(line).value + 1..] == value
  {
    var head := before + name + after;
    ColonAfterName(head, value);
    assert head + ":" + value == before + name + after + ":" + value;
    forall k | 0 <= k < |head| && !(|before| <= k < |before + name|) ensures IsWhite(head[k], Ascii) {
      assert head[k] in before + after;
    }
    TrimIs(head, Ascii, |before|, name);
  }

  // ---- flag strings ----

  /** A backslash, then characters that are neither backslash nor blank. */
  predicate IsFlag(w: string) {
    |w| > 1 && w[0] == '\\' && forall i | 0 < i < |w| :: w[i] != '\\' && w[i] != ' '
  }

  /** A list of flags joined by blanks contains those flags and no other of their kind. */
  lemma {:induction false} JoinContains(words: seq<string>, w: string)
    requires IsFlag(w) && (forall v | v in words :: IsFlag(v)) && (forall v | v in words && w <= v :: v == w)
    ensures Contains(Join(words), w) <==> w in words
  {
    hide Contains;
    if words == [] {
      ContainsIs("", w);
    } else if |words| == 1 {
      assert words[0] in words;
      FlagAlone(words[0], w);
    } else {
      assert words[0] in words && forall v | v in words[1..] :: v in words;
      JoinContains(words[1..], w);
      FlagAhead(words[0], Join(words[1..]), w);
      assert words == [words[0]] + words[1..];
    }
  }

  lemma ContainsIs(s: string, w: string)
    ensures Contains(s, w) <==> exists i: nat :: HasAt(s, w, i)
  {
  }

  lemma FlagIn(s: string, w: string, i: nat)
    requires IsFlag(w) && HasAt(s, w, i)
    ensures s[i] == '\\' && forall k | i < k < i + |w| :: s[k] != '\\' && s[k] != ' '
  {
    assert s[i..i + |w|][0] == s[i];
    forall k | i < k < i + |w| ensures s[k] == w[k - i] {
      assert s[i..i + |w|][k - i] == s[k];
    }
  }

  lemma FlagAlone(v: string, w: string)
    requires IsFlag(v) && IsFlag(w) && (w <= v ==> v == w)
    ensures Contains(v, w) <==> v == w
  {
    if i: nat :| HasAt(v, w, i) {
      FlagIn(v, w, i);
      assert i == 0 && w <= v;
    }
    assert v == w ==> HasAt(v, w, 0);
  }

  lemma FlagAhead(v: string, rest: string, w: string)
    requires IsFlag(v) && IsFlag(w) && (w <= v ==> v == w)
    ensures Contains(v + " " + rest, w) <==> v == w || Contains(rest, w)
  {
    var s, n := v + " " + rest, |v| + 1;
    assert s[n..] == rest;
    if i: nat :| HasAt(s, w, i) {
      FlagIn(s, w, i);
      if i < n {
        assert s[|v|] == ' ';
        assert i == 0 && |w| <= |v| && s[..|w|] == v[..|w|];
        assert w <= v;
      } else {
        SliceBehind(s, n, i - n, |w|);
        assert HasAt(rest, w, i - n);
      }
    }
    if j: nat :| HasAt(rest, w, j) {
      SliceBehind(s, n, j, |w|);
      assert HasAt(s, w, n + j);
    }
    if v == w {
      assert s[0..|w|] == w;
      assert HasAt(s, w, 0);
    }
  }

  lemma SliceBehind(s: string, n: nat, i: nat, k: nat)
    requires n + i + k <= |s|
    ensures s[n..][i..i + k] == s[n + i..n + i + k]
  {
  }

  const FLAGS := ["\\Seen", "\\Flagged", "\\Answered", "\\Deleted", "\\Draft"]

  lemma FlagsAre()
    ensures forall w | w in FLAGS :: IsFlag(w)
    ensures forall v, w | v in FLAGS && w in FLAGS && w <= v :: v == w
  {
    forall v, w | v in FLAGS && w in FLAGS && w <= v ensures v == w {
      assert w[1] == v[1] && w[2] == v[2];
    }
  }

  /** The five flags are in the list exactly when they are asked for. */
  lemma FlagListIs(asked: seq<bool>)
    requires |asked| == |FLAGS|
    ensures forall i | 0 <= i < |FLAGS| ::
      Contains(FlagList(asked[0], asked[1], asked[2], asked[3], asked[4]), FLAGS[i]) <==> asked[i]
  {
    hide Contains, Join, IsFlag;
    var words := Asked(asked, |FLAGS|);
    FlagsAre();
    AskedAre(asked, |FLAGS|);
    AskedFive(asked);
    forall i | 0 <= i < |FLAGS| ensures Contains(Join(words), FLAGS[i]) <==> asked[i] {
      assert FLAGS[i] in FLAGS;
      JoinContains(words, FLAGS[i]);
    }
  }

  function Asked(asked: seq<bool>, n: nat): seq<string>
    requires n <= |asked| == |FLAGS|
  {
    if n == 0 then [] else Asked(asked, n - 1) + if asked[n - 1] then [FLAGS[n - 1]] else []
  }

  lemma {:induction false} AskedAre(asked: seq<bool>, n: nat)
    requires n <= |asked| == |FLAGS|
    ensures forall w | w in Asked(asked, n) :: w in FLAGS
    ensures forall i | 0 <= i < |FLAGS| :: FLAGS[i] in Asked(asked, n) <==> i < n && asked[i]
  {
    if n > 0 {
      AskedAre(asked, n - 1);
      FlagsDiffer();
    }
  }

  lemma FlagsDiffer()
    ensures forall i, j | 0 <= i < j < |FLAGS| :: FLAGS[i] != FLAGS[j]
  {
    FlagsAre();
    assert FLAGS[0][1] == 'S' && FLAGS[1][1] == 'F' && FLAGS[2][1] == 'A';
    assert FLAGS[3][1] == 'D' && FLAGS[4][1] == 'D' && FLAGS[3][2] == 'e' && FLAGS[4][2] == 'r';
  }

  lemma {:induction false} AskedFive(asked: seq<bool>)
    requires |asked| == |FLAGS|
    ensures Join(Asked(asked, |FLAGS|)) == FlagList(asked[0], asked[1], asked[2], asked[3], asked[4])
  {
    assert Asked(asked, 2) == Asked(asked, 1) + if asked[1] then [FLAGS[1]] else [];
    assert Asked(asked, 1) == if asked[0] then [FLAGS[0]] else [];
    assert Asked(asked, 5) == Asked(asked, 4) + if asked[4] then [FLAGS[4]] else [];
    assert Asked(asked, 4) == Asked(asked, 3) + if asked[3] then [FLAGS[3]] else [];
    assert Asked(asked, 3) == Asked(asked, 2) + if asked[2] then [FLAGS[2]] else [];
  }
}
