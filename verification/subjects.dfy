/** Subject lines reduced to what replies and forwards share. */
module Subjects {
  import opened Common
  import opened Text

  /** The position of the bracket that closes a leading tag. */
  function TagEnd(s: string): Option<nat> {
    if s != "" && s[0] == '[' then Find(s, "]", 0) else None
  }

  /** Leading `[tag]` groups removed. */
  function StripTags(s: string): (r: string)
    ensures |r| <= |s| && TagEnd(r).None?
    decreases |s|
  {
    match TagEnd(s)
    case Some(close) =>
      StripTags(Trim(s[close + 1..], Unicode))
    case None => s
  }

  predicate StartsWith(s: string, prefix: string) {
    HasAt(s, prefix, 0)
  }

  /** What follows one leading Re:, Fwd:, Fw: or Re[N]: in any case; None without one. */
  function StripReply(s: string): (r: Option<string>)
    ensures r.Some? ==> |r.value| < |s|
  {
    var lower := Lower(s);
    if StartsWith(lower, "re:") then Some(Trim(s[3..], Unicode))
    else if StartsWith(lower, "fwd:") then Some(Trim(s[4..], Unicode))
    else if StartsWith(lower, "fw:") then Some(Trim(s[3..], Unicode))
    else if StartsWith(lower, "re[") && Find(lower, "]:", 0).Some? then
      var skip := Find(lower, "]:", 0).value + 2;
      Some(Trim(s[skip..], Unicode))
    else None
  }

  /** Tags and reply prefixes removed for as long as there are any. */
  function Core(s: string): string
    decreases |s|
  {
    var t := StripTags(s);
    match StripReply(t)
    case Some(rest) => Core(rest)
    case None => t
  }

  function Normal(s: string): string {
    Lower(Core(Trim(s, Unicode)))
  }

  predicate ReadsAsReply(s: string) {
    StripReply(StripTags(Trim(s, Unicode))).Some?
  }

  method StripTagsLoop(s: string) returns (rest: string, stripped: bool)
    ensures rest == StripTags(s)
    ensures stripped ==> |rest| < |s|
    ensures !stripped ==> rest == s
  {
    rest, stripped := s, false;
    while TagEnd(rest).Some?
      invariant StripTags(rest) == StripTags(s)
      invariant if stripped then |rest| < |s| else rest == s
      decreases |rest|
    {
      var close := TagEnd(rest).value;
      rest, stripped := Trim(rest[close + 1..], Unicode), true;
    }
  }

  method NormalizeSubject(s: string) returns (r: string)
    ensures r == Normal(s)
  {
    var result := Trim(s, Unicode);
    while true
      invariant Core(result) == Core(Trim(s, Unicode))
      decreases |result|
    {
      var stripped;
      result, stripped := StripTagsLoop(result);
      StripTagsTwice(result);
      var lower := Lower(result);
      if StartsWith(lower, "re:") {
        result, stripped := Trim(result[3..], Unicode), true;
      } else if StartsWith(lower, "fwd:") {
        result, stripped := Trim(result[4..], Unicode), true;
      } else if StartsWith(lower, "fw:") {
        result, stripped := Trim(result[3..], Unicode), true;
      } else if StartsWith(lower, "re[") && Find(lower, "]:", 0).Some? {
        result, stripped := Trim(result[Find(lower, "]:", 0).value + 2..], Unicode), true;
      }
      if !stripped {
        break;
      }
    }
    r := Lower(result);
  }

  method IsReplyOrFwd(s: string) returns (r: bool)
    ensures r == ReadsAsReply(s)
  {
    var rest, _ := StripTagsLoop(Trim(s, Unicode));
    var lower := Lower(rest);
    r := StartsWith(lower, "re:") || StartsWith(lower, "fwd:") || StartsWith(lower, "fw:")
         || (StartsWith(lower, "re[") && Find(lower, "]:", 0).Some?);
  }

  lemma {:induction false} StripTagsTwice(s: string)
    ensures StripTags(StripTags(s)) == StripTags(s)
  {
  }

  // ---- what normalising is for ----

  lemma {:induction false} CoreIsBare(s: string)
    requires Trimmed(s, Unicode)
    ensures var core := Core(s);
      Trimmed(core, Unicode) && TagEnd(core).None? && StripReply(core).None?
    decreases |s|
  {
    StripTagsTrimmed(s);
    var t := StripTags(s);
    if StripReply(t).Some? {
      StripReplyTrimmed(t);
      CoreIsBare(StripReply(t).value);
    }
  }

  lemma {:induction false} StripTagsTrimmed(s: string)
    requires Trimmed(s, Unicode)
    ensures Trimmed(StripTags(s), Unicode)
    decreases |s|
  {
    if TagEnd(s).Some? {
      TrimIsTrimmed(s[TagEnd(s).value + 1..], Unicode);
      StripTagsTrimmed(Trim(s[TagEnd(s).value + 1..], Unicode));
    }
  }

  lemma StripReplyTrimmed(s: string)
    requires StripReply(s).Some?
    ensures Trimmed(StripReply(s).value, Unicode)
  {
    TrimIsTrimmed(s[3..], Unicode);
    if |s| >= 4 { TrimIsTrimmed(s[4..], Unicode); }
    var end := Find(Lower(s), "]:", 0);
    if end.Some? { TrimIsTrimmed(s[end.value + 2..], Unicode); }
  }

  lemma {:induction false} LowerKeepsBrackets(s: string, from: nat)
    ensures Find(Lower(s), "]", from) == Find(s, "]", from)
    decreases |s| - from
  {
    assert from < |s| ==> s[from..from + 1] == [s[from]] && Lower(s)[from..from + 1] == [Lower(s)[from]];
    if from < |s| && s[from] != ']' {
      LowerKeepsBrackets(s, from + 1);
    }
  }

  lemma LowerKeepsBare(s: string)
    requires Trimmed(s, Unicode) && TagEnd(s).None? && StripReply(s).None?
    ensures Trimmed(Lower(s), Unicode) && TagEnd(Lower(s)).None? && StripReply(Lower(s)).None?
    ensures Lower(Lower(s)) == Lower(s)
  {
    assert Lower(Lower(s)) == Lower(s);
    LowerKeepsBrackets(s, 0);
  }

  /** A normal form is its own normal form and never reads as a reply. */
  lemma NormalIsFinal(s: string)
    ensures Normal(Normal(s)) == Normal(s) && !ReadsAsReply(Normal(s))
  {
    TrimIsTrimmed(s, Unicode);
    CoreIsBare(Trim(s, Unicode));
    var core := Core(Trim(s, Unicode));
    LowerKeepsBare(core);
    TrimIs(Lower(core), Unicode, 0, Lower(core));
  }

  predicate IsReplyPrefix(prefix: string) {
    Lower(prefix) == "re:" || Lower(prefix) == "fwd:" || Lower(prefix) == "fw:"
  }

  lemma PrefixStrips(prefix: string, t: string)
    requires IsReplyPrefix(prefix)
    ensures TagEnd(prefix + t).None? && StripReply(prefix + t) == Some(Trim(t, Unicode))
  {
    var u := prefix + t;
    var lower, head := Lower(u), Lower(prefix);
    assert lower[0..|prefix|] == head;
    assert lower[0] == head[0] == LowerChar(prefix[0]) && lower[2] == head[2];
    assert StartsWith(lower, "re:") ==> lower[0..3][0] == 'r';
    assert StartsWith(lower, "fwd:") ==> lower[0..4][2] == 'd';
    assert u[|prefix|..] == t;
  }

  lemma {:induction false} CoreOfReply(u: string, rest: string)
    requires TagEnd(u).None? && StripReply(u) == Some(rest)
    ensures StripTags(u) == u && Core(u) == Core(rest)
  {
    hide TagEnd, StripReply;
  }

  lemma CoreOfTagged(u: string, close: nat)
    requires TagEnd(u) == Some(close) && close < |u|
    ensures StripTags(u) == StripTags(Trim(u[close + 1..], Unicode))
    ensures Core(u) == Core(Trim(u[close + 1..], Unicode))
  {
    hide TagEnd, StripReply, Trim;
    StripTagsTwice(u);
  }

  /** White text at the end of what follows a head goes first. */
  lemma {:induction false} TrimBehindHead(head: string, s: string)
    requires head != "" && !IsWhite(head[0], Unicode) && !IsWhite(head[|head| - 1], Unicode)
    ensures var t := TrimEnd(s, Unicode);
      Trim(head + s, Unicode) == head + t && Trim(t, Unicode) == Trim(s, Unicode)
  {
    hide IsWhite, Trim, TrimEnd;
    var t := TrimEnd(s, Unicode);
    TrimEndFacts(s, Unicode);
    TrimIs(head + s, Unicode, 0, head + t);
    TrimAround(s, Unicode, 0, |t|);
  }

  lemma PrefixEnds(prefix: string)
    requires IsReplyPrefix(prefix)
    ensures prefix != "" && !IsWhite(prefix[0], Unicode) && !IsWhite(prefix[|prefix| - 1], Unicode)
  {
    var lower := Lower(prefix);
    assert LowerChar(prefix[0]) == lower[0] && LowerChar(prefix[|prefix| - 1]) == lower[|prefix| - 1];
    assert lower[0] == 'r' || lower[0] == 'f';
    assert lower[|prefix| - 1] == ':';
  }

  /** A reply or forward prefix in any case reads as a reply and is not part of the
      normal form, so a reply and what it answers are grouped. */
  lemma PrefixIsNeutral(prefix: string, s: string)
    requires IsReplyPrefix(prefix)
    ensures ReadsAsReply(prefix + s) && Normal(prefix + s) == Normal(s)
  {
    hide Trim, TrimEnd, Core, StripTags, StripReply, TagEnd, IsReplyPrefix, IsWhite;
    var t := TrimEnd(s, Unicode);
    PrefixEnds(prefix);
    TrimBehindHead(prefix, s);
    PrefixStrips(prefix, t);
    CoreOfReply(prefix + t, Trim(t, Unicode));
  }

  lemma TagEndIs(tag: string, t: string)
    requires ']' !in tag
    ensures TagEnd("[" + tag + "]" + t) == Some(|tag| + 1)
  {
    var u := "[" + tag + "]" + t;
    assert HasAt(u, "]", |tag| + 1);
    forall i | 0 <= i < |tag| + 1 ensures !HasAt(u, "]", i) {
      assert u[i..i + 1] == [u[i]];
      assert i > 0 ==> u[i] == tag[i - 1] && tag[i - 1] in tag;
    }
    FindsAt(u, "]", 0, |tag| + 1);
  }

  /** A mailing-list tag in front is not part of the normal form. */
  lemma TagIsNeutral(tag: string, s: string)
    requires ']' !in tag
    ensures Normal("[" + tag + "]" + s) == Normal(s)
    ensures ReadsAsReply("[" + tag + "]" + s) == ReadsAsReply(s)
  {
    hide Trim, TrimEnd, Core, StripTags, StripReply, TagEnd;
    var head, t := "[" + tag + "]", TrimEnd(s, Unicode);
    TrimBehindHead(head, s);
    TagEndIs(tag, t);
    assert (head + t)[|tag| + 2..] == t;
    CoreOfTagged(head + t, |tag| + 1);
  }

  /** A numbered reply prefix, Re[N]: in any case. */
  predicate IsNumberedReply(prefix: string) {
    |prefix| >= 5 && Lower(prefix[..3]) == "re[" && prefix[|prefix| - 2..] == "]:"
    && !Contains(prefix[..|prefix| - 1], "]:")
  }

  lemma StartsElse(s: string, prefix: string, i: nat)
    requires i < |s| && i < |prefix| && s[i] != prefix[i]
    ensures !StartsWith(s, prefix)
  {
  }

  lemma NumberedReplyStrips(prefix: string, t: string)
    requires IsNumberedReply(prefix)
    ensures TagEnd(prefix + t).None? && StripReply(prefix + t) == Some(Trim(t, Unicode))
  {
    var u, n := prefix + t, |prefix| - 2;
    var lower := Lower(u);
    assert lower[0..3] == Lower(prefix[..3]) == "re[";
    assert lower[0] == 'r' && lower[2] == '[';
    StartsElse(lower, "re:", 2);
    StartsElse(lower, "fwd:", 0);
    StartsElse(lower, "fw:", 0);
    assert u[n] == prefix[n..][0] == ']' && u[n + 1] == prefix[n..][1] == ':';
    assert lower[n..n + 2] == "]:";
    forall i | 0 <= i < n ensures !HasAt(lower, "]:", i) {
      assert !HasAt(prefix[..n + 1], "]:", i);
      assert prefix[..n + 1][i..i + 2] == [u[i], u[i + 1]];
      assert lower[i..i + 2] == [LowerChar(u[i]), LowerChar(u[i + 1])];
    }
    FindsAt(lower, "]:", 0, n);
    assert u[n + 2..] == t;
  }

  lemma NumberedReplyIsNeutral(prefix: string, s: string)
    requires IsNumberedReply(prefix)
    ensures ReadsAsReply(prefix + s) && Normal(prefix + s) == Normal(s)
  {
    hide Trim, TrimEnd, Core, StripTags, StripReply, TagEnd, IsNumberedReply, IsWhite;
    var t := TrimEnd(s, Unicode);
    NumberedReplyEnds(prefix);
    TrimBehindHead(prefix, s);
    NumberedReplyStrips(prefix, t);
    CoreOfReply(prefix + t, Trim(t, Unicode));
  }

  lemma NumberedReplyEnds(prefix: string)
    requires IsNumberedReply(prefix)
    ensures prefix != "" && !IsWhite(prefix[0], Unicode) && !IsWhite(prefix[|prefix| - 1], Unicode)
  {
    assert LowerChar(prefix[0]) == Lower(prefix[..3])[0] == 'r';
    assert prefix[|prefix| - 1] == prefix[|prefix| - 2..][1] == ':';
  }

  /** No tag and no reply prefix in front. */
  predicate IsPlain(s: string) {
    var lower := Lower(s);
    && !(s != "" && s[0] == '[' && ']' in s)
    && forall prefix | prefix in ["re:", "fwd:", "fw:", "re["] ::
         prefix <= lower ==> prefix == "re[" && !Contains(lower, "]:")
  }

  lemma {:induction false} FindsNothing(s: string, pat: string)
    ensures Find(s, pat, 0).Some? <==> Contains(s, pat)
  {
    FindIsFirst(s, pat, 0);
  }

  /** Without tag and prefix the normal form is the subject in lower case, without the white
      space around it; it does not read as a reply. */
  lemma PlainIsLowered(before: string, s: string, after: string)
    requires IsPlain(s) && Trimmed(s, Unicode)
    requires forall c | c in before + after :: IsWhite(c, Unicode)
    ensures Normal(before + s + after) == Lower(s) && !ReadsAsReply(before + s + after)
  {
    var text := before + s + after;
    assert text[|before|..|before + s|] == s;
    forall k | 0 <= k < |text| && !(|before| <= k < |before + s|) ensures IsWhite(text[k], Unicode) {
      assert text[k] in before + after;
    }
    TrimIs(text, Unicode, |before|, s);
    assert TagEnd(s).None? by {
      FindIsFirst(s, "]", 0);
      var at := Find(s, "]", 0);
      if at.Some? {
        assert s[at.value..at.value + 1][0] == ']';
      }
    }
    assert StripTags(s) == s;
    assert StripReply(s).None? by {
      var lower := Lower(s);
      FindsNothing(lower, "]:");
      assert forall prefix | prefix in ["re:", "fwd:", "fw:", "re["] :: StartsWith(lower, prefix) ==> prefix <= lower;
      assert "re:" in ["re:", "fwd:", "fw:", "re["] && "fwd:" in ["re:", "fwd:", "fw:", "re["];
      assert "fw:" in ["re:", "fwd:", "fw:", "re["] && "re[" in ["re:", "fwd:", "fw:", "re["];
    }
  }
}
