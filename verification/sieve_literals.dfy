/** How a ManageSieve line announces a literal. */
module SieveLiterals {
  import opened Common
  import opened Text

  const USIZE: nat := 0x1_0000_0000_0000_0000

  predicate IsDigit(c: char) {
    '0' <= c <= '9'
  }

  predicate AreDigits(s: string) {
    forall c | c in s :: IsDigit(c)
  }

  function Number(digits: string): nat
    requires AreDigits(digits)
  {
    if digits == "" then 0 else
    assert digits[|digits| - 1] in digits;
    10 * Number(digits[..|digits| - 1]) + (digits[|digits| - 1] - '0') as nat
  }

  /** The number a text spells, if it fits 64 bits: one leading plus sign is allowed. */
  function ParseUsize(s: string): Option<nat> {
    var digits := if s != "" && s[0] == '+' then s[1..] else s;
    if digits == "" || !AreDigits(digits) || Number(digits) >= USIZE then None
    else Some(Number(digits))
  }

  function WithoutPluses(s: string): string {
    if s != "" && s[|s| - 1] == '+' then WithoutPluses(s[..|s| - 1]) else s
  }

  function LastAt(s: string, c: char): (r: Option<nat>)
    ensures r.Some? ==> r.value < |s| && s[r.value] == c && c !in s[r.value + 1..]
    ensures r.None? ==> c !in s
  {
    if s == "" then None
    else if s[|s| - 1] == c then Some(|s| - 1)
    else LastAt(s[..|s| - 1], c)
  }

  /** The length a line announces at its end, as {n} or {n+}. */
  function ParseLiteralLen(line: string): Option<nat> {
    var trimmed := Trim(line, Unicode);
    if trimmed == "" || trimmed[|trimmed| - 1] != '}' then None else
    var open := LastAt(trimmed, '{');
    if open.None? then None else ParseUsize(WithoutPluses(trimmed[open.value + 1..|trimmed| - 1]))
  }

  lemma {:induction false} DecimalIsDigits(n: nat)
    ensures Decimal(n) != "" && AreDigits(Decimal(n)) && Number(Decimal(n)) == n
  {
    if n >= 10 {
      DecimalIsDigits(n / 10);
      assert Decimal(n)[..|Decimal(n)| - 1] == Decimal(n / 10);
    } else {
      assert Decimal(n)[..0] == "";
    }
  }

  lemma {:induction false} LastAtIs(s: string, c: char, i: nat)
    requires i < |s| && s[i] == c && c !in s[i + 1..]
    ensures LastAt(s, c) == Some(i)
  {
    if i < |s| - 1 {
      assert s[|s| - 1] == s[i + 1..][|s| - 2 - i];
      assert forall k | i < k < |s| :: s[k] in s[i + 1..];
      LastAtIs(s[..|s| - 1], c, i);
    }
  }

  /** Nothing but braces at the end of the line, around digits with plus signs on either side, is read
      as a length. */
  lemma OnlyAnnouncementsAreRead(line: string) returns (before: string, plus: bool, digits: string, pluses: string)
    requires ParseLiteralLen(line).Some?
    ensures Trim(line, Unicode) == before + "{" + (if plus then "+" else "") + digits + pluses + "}"
    ensures digits != "" && AreDigits(digits) && (forall i | 0 <= i < |pluses| :: pluses[i] == '+')
    ensures ParseLiteralLen(line) == Some(Number(digits)) && Number(digits) < USIZE
  {
    hide Trim, Number, AreDigits, WithoutPluses;
    var t := Trim(line, Unicode);
    var open := LastAt(t, '{').value;
    var inner := t[open + 1..|t| - 1];
    var core := WithoutPluses(inner);
    PlusesAre(inner);
    before, pluses := t[..open], inner[|core|..];
    plus := core != "" && core[0] == '+';
    digits := if plus then core[1..] else core;
    assert inner == core + pluses;
    assert core == (if plus then "+" else "") + digits;
    CutAround(t, open);
    Braced(before, if plus then "+" else "", digits, pluses);
  }

  lemma Braced(before: string, sign: string, digits: string, pluses: string)
    ensures before + "{" + (sign + digits + pluses) + "}" == before + "{" + sign + digits + pluses + "}"
  {
  }

  lemma CutAround(t: string, open: nat)
    requires open < |t| - 1 && t[open] == '{' && t[|t| - 1] == '}'
    ensures t == t[..open] + "{" + t[open + 1..|t| - 1] + "}"
  {
  }

  lemma {:induction false} PlusesAre(s: string)
    ensures var core := WithoutPluses(s);
      core <= s && forall i | |core| <= i < |s| :: s[i] == '+'
  {
    if s != "" && s[|s| - 1] == '+' {
      PlusesAre(s[..|s| - 1]);
    }
  }

  function Announcement(n: nat, plus: bool): string {
    "{" + Decimal(n) + (if plus then "+}" else "}")
  }

  /** Whatever stands in front of it, the announced length is read. */
  lemma AnnouncementIsRead(before: string, n: nat, plus: bool)
    requires n < USIZE
    ensures ParseLiteralLen(before + Announcement(n, plus)) == Some(n)
  {
    hide Decimal, Trim, LastAt, WithoutPluses, Number, AreDigits;
    var digits := Decimal(n);
    DecimalIsDigits(n);
    var a := Announcement(n, plus);
    AnnouncementEnds(n, plus);
    TrimKeepsEnd(before, a);
    var t := Trim(before + a, Unicode);
    var k := |t| - |a|;
    AnnouncedInner(t, k, digits, plus);
    LastAtIs(t, '{', k);
    PlusesGo(digits, plus);
  }

  lemma AnnouncementEnds(n: nat, plus: bool)
    ensures var a := Announcement(n, plus);
      a != "" && !IsWhite(a[0], Unicode) && !IsWhite(a[|a| - 1], Unicode)
  {
    hide Decimal;
  }

  /** Text between characters that are not white is left at the end by trimming. */
  lemma TrimKeepsEnd(before: string, a: string)
    requires a != "" && !IsWhite(a[0], Unicode) && !IsWhite(a[|a| - 1], Unicode)
    ensures var t := Trim(before + a, Unicode); |t| >= |a| && t[|t| - |a|..] == a
  {
    var s := before + a;
    assert TrimEnd(s, Unicode) == s;
    TrimStartFacts(s, Unicode);
    var t := Trim(s, Unicode);
    assert s[|before|] == a[0];
    assert |s| - |t| <= |before|;
    assert t[|t| - |a|..] == s[|s| - |a|..];
  }

  lemma AnnouncedInner(t: string, k: nat, digits: string, plus: bool)
    requires k <= |t| && t[k..] == "{" + digits + (if plus then "+}" else "}") && AreDigits(digits)
    ensures t[|t| - 1] == '}' && t[k] == '{' && '{' !in t[k + 1..]
    ensures t[k + 1..|t| - 1] == digits + (if plus then "+" else "")
  {
    var a := "{" + digits + (if plus then "+}" else "}");
    assert forall i | k <= i < |t| :: t[i] == a[i - k];
    assert forall i | 1 <= i <= |digits| :: a[i] == digits[i - 1] && digits[i - 1] in digits;
  }

  lemma {:induction false} PlusesGo(digits: string, plus: bool)
    requires digits != "" && AreDigits(digits)
    ensures WithoutPluses(digits + (if plus then "+" else "")) == digits
    ensures digits[0] != '+'
  {
    assert digits[|digits| - 1] in digits && digits[0] in digits;
    assert (digits + "+")[..|digits|] == digits;
    assert digits + "" == digits;
  }
}
