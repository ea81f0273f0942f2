/** Bytes read as UTF-8, with a replacement character for what is none (String::from_utf8_lossy). */
module Utf8 {
  import opened Common

  const REPLACEMENT := '\U{FFFD}'

  predicate IsCont(b: char) {
    '\U{80}' <= b <= '\U{BF}'
  }

  /** The bytes that have to follow a first byte that is not ASCII; 0 when it cannot be one. */
  function Following(b: char): nat {
    if '\U{C2}' <= b <= '\U{DF}' then 1
    else if '\U{E0}' <= b <= '\U{EF}' then 2
    else if '\U{F0}' <= b <= '\U{F4}' then 3
    else 0
  }

  /** Second bytes that make no overlong form, no surrogate and nothing past the last code point. */
  predicate IsSecond(a: char, b: char) {
    && IsCont(b)
    && (a == '\U{E0}' ==> b >= '\U{A0}')
    && (a == '\U{ED}' ==> b <= '\U{9F}')
    && (a == '\U{F0}' ==> b >= '\U{90}')
    && (a == '\U{F4}' ==> b <= '\U{8F}')
  }

  /** How many of the first bytes can begin one character. */
  function Matched(s: string): (n: nat)
    requires s != "" && Following(s[0]) > 0
    ensures 1 <= n <= |s| && n <= Following(s[0]) + 1
    ensures n > 1 ==> IsSecond(s[0], s[1])
    ensures forall i | 1 <= i < n :: IsCont(s[i])
  {
    var more := Following(s[0]);
    if |s| < 2 || !IsSecond(s[0], s[1]) then 1
    else if more < 2 || |s| < 3 || !IsCont(s[2]) then 2
    else if more < 3 || |s| < 4 || !IsCont(s[3]) then 3
    else 4
  }

  function Bits(b: char): nat {
    b as nat % 64
  }

  /** The character that a first byte and those that follow it stand for. */
  function Scalar(s: string): (c: char)
    requires s != "" && Following(s[0]) > 0 && Matched(s) == Following(s[0]) + 1
    ensures |Utf8Of(c)| == Matched(s)
  {
    var a, b := s[0] as nat, Bits(s[1]);
    match Following(s[0])
    case 1 => ((a - 0xC0) * 64 + b) as char
    case 2 => ((a - 0xE0) * 4096 + b * 64 + Bits(s[2])) as char
    case _ => ((a - 0xF0) * 262144 + b * 4096 + Bits(s[2]) * 64 + Bits(s[3])) as char
  }

  /** The text that bytes stand for. */
  function Decoded(s: string): string {
    if s == "" then ""
    else if s[0] < '\U{80}' then [s[0]] + Decoded(s[1..])
    else if Following(s[0]) == 0 then [REPLACEMENT] + Decoded(s[1..])
    else
      var n := Matched(s);
      [if n == Following(s[0]) + 1 then Scalar(s) else REPLACEMENT] + Decoded(s[n..])
  }

  // ---- the bytes of a text ----

  function Utf8Of(c: char): string {
    var n := c as nat;
    if n < 0x80 then [c]
    else if n < 0x800 then [(0xC0 + n / 64) as char, (0x80 + n % 64) as char]
    else if n < 0x10000 then [(0xE0 + n / 4096) as char, (0x80 + n / 64 % 64) as char, (0x80 + n % 64) as char]
    else [(0xF0 + n / 262144) as char, (0x80 + n / 4096 % 64) as char, (0x80 + n / 64 % 64) as char,
          (0x80 + n % 64) as char]
  }

  function Encoded(text: string): string {
    if text == "" then "" else Utf8Of(text[0]) + Encoded(text[1..])
  }

  /** The length of a text in bytes. */
  function Size(text: string): nat {
    if text == "" then 0 else |Utf8Of(text[0])| + Size(text[1..])
  }

  /** Bytes that decode without a replacement. */
  predicate IsUtf8(s: string) {
    Encoded(Decoded(s)) == s
  }

  lemma {:induction false} SizeIsEncoded(text: string)
    ensures Size(text) == |Encoded(text)|
  {
    if text != "" {
      SizeIsEncoded(text[1..]);
    }
  }

  /** Decoding takes a byte to at most one character, and to at most three bytes. */
  lemma {:induction false} DecodedIsAtMostTriple(s: string)
    ensures |Decoded(s)| <= |s| && Size(Decoded(s)) <= 3 * |s|
    ensures Decoded(s) == "" <==> s == ""
    decreases |s|
  {
    hide Scalar, Matched, Utf8Of;
    if s != "" {
      SizeOfMore(Decoded(s)[0], Decoded(s)[1..]);
      CharSize(s[0]);
      CharSize(REPLACEMENT);
      if s[0] < '\U{80}' || Following(s[0]) == 0 {
        DecodedIsAtMostTriple(s[1..]);
      } else {
        DecodedIsAtMostTriple(s[Matched(s)..]);
      }
    }
  }

  lemma CharSize(c: char)
    ensures c < '\U{80}' ==> |Utf8Of(c)| == 1
    ensures |Utf8Of(REPLACEMENT)| == 3
  {
  }

  lemma {:induction false} SizeOfMore(c: char, text: string)
    ensures Size([c] + text) == |Utf8Of(c)| + Size(text)
  {
    assert ([c] + text)[1..] == text;
  }

  // ---- text written as UTF-8 ----

  /** The digits of a number to the base of 64. */
  lemma Digits(n: nat)
    ensures n / 64 * 64 + n % 64 == n
    ensures n / 4096 * 4096 + n / 64 % 64 * 64 + n % 64 == n
    ensures n / 262144 * 262144 + n / 4096 % 64 * 4096 + n / 64 % 64 * 64 + n % 64 == n
  {
    assert n / 4096 == n / 64 / 64 && n / 262144 == n / 4096 / 64;
  }

  lemma FollowingByte(x: nat)
    requires x < 64
    ensures IsCont((0x80 + x) as char) && Bits((0x80 + x) as char) == x
  {
  }

  lemma SecondByte(n: nat)
    requires 0x800 <= n < 0x110000 && !(0xD800 <= n < 0xE000)
    ensures n < 0x10000 ==> IsSecond((0xE0 + n / 4096) as char, (0x80 + n / 64 % 64) as char)
    ensures n >= 0x10000 ==> IsSecond((0xF0 + n / 262144) as char, (0x80 + n / 4096 % 64) as char)
  {
  }

  lemma CharIsRead(c: char, rest: string)
    requires c >= '\U{80}'
    ensures var s := Utf8Of(c) + rest;
      && s[0] >= '\U{80}' && Following(s[0]) == |Utf8Of(c)| - 1 > 0
      && Matched(s) == |Utf8Of(c)| && Scalar(s) == c && s[Matched(s)..] == rest
  {
    hide IsSecond, IsCont, Bits;
    var s, n := Utf8Of(c) + rest, c as nat;
    Digits(n);
    FollowingByte(n % 64);
    FollowingByte(n / 64 % 64);
    FollowingByte(n / 4096 % 64);
    if n < 0x800 {
      TwoBytes(s[0], s[1]);
    } else {
      SecondByte(n);
    }
  }

  lemma TwoBytes(a: char, b: char)
    requires '\U{C2}' <= a <= '\U{DF}' && IsCont(b)
    ensures IsSecond(a, b)
  {
  }

  /** Text written as UTF-8 is read back. */
  lemma {:induction false} DecodeUndoesEncode(text: string)
    ensures Decoded(Encoded(text)) == text
  {
    hide Utf8Of, Matched, Scalar, Following;
    if text != "" {
      var c, rest := text[0], Encoded(text[1..]);
      assert text == [c] + text[1..];
      DecodeUndoesEncode(text[1..]);
      if c < '\U{80}' {
        AsciiIsItself(c, rest);
      } else {
        CharIsRead(c, rest);
      }
    }
  }

  lemma AsciiIsItself(c: char, rest: string)
    requires c < '\U{80}'
    ensures Utf8Of(c) + rest != ""
    ensures var s := Utf8Of(c) + rest; s[0] == c && s[1..] == rest
  {
  }

  // ---- bytes that are no UTF-8 ----

  /** A byte that begins no character is replaced on its own. */
  lemma {:induction false} StrayByteIsReplaced(b: char, rest: string)
    requires '\U{80}' <= b <= '\U{C1}' || b >= '\U{F5}'
    ensures Decoded([b] + rest) == [REPLACEMENT] + Decoded(rest)
  {
    assert ([b] + rest)[1..] == rest;
  }

  /** A character that breaks off is replaced as one, however many of its bytes are there. */
  lemma {:induction false} BrokenCharIsReplaced(c: char, n: nat, rest: string)
    requires 0 < n < |Utf8Of(c)| && (rest != "" ==> !('\U{80}' <= rest[0] <= '\U{BF}'))
    ensures Decoded(Utf8Of(c)[..n] + rest) == [REPLACEMENT] + Decoded(rest)
  {
    var s, whole := Utf8Of(c)[..n] + rest, Utf8Of(c) + "";
    CharIsRead(c, "");
    assert whole == Utf8Of(c);
    assert forall i | 0 <= i < n :: s[i] == whole[i];
    assert n < |s| ==> s[n] == rest[0];
    BreaksOff(s, whole, n);
    assert s[n..] == rest;
  }

  lemma BreaksOff(s: string, whole: string, n: nat)
    requires whole != "" && whole[0] >= '\U{80}' && 0 < n < |whole| && n <= |s|
    requires Following(whole[0]) > 0 && Matched(whole) == |whole| == Following(whole[0]) + 1
    requires (forall i | 0 <= i < n :: s[i] == whole[i]) && (n < |s| ==> !IsCont(s[n]))
    ensures Following(s[0]) == Following(whole[0]) && Matched(s) == n
  {
  }

  /** A second byte that would make an overlong form, a surrogate or too great a number counts as
      none: the first byte is replaced on its own. */
  lemma {:induction false} WrongSecondIsReplaced(a: char, b: char, rest: string)
    requires || (a == '\U{E0}' && b < '\U{A0}') || (a == '\U{ED}' && b > '\U{9F}')
             || (a == '\U{F0}' && b < '\U{90}') || (a == '\U{F4}' && b > '\U{8F}')
    ensures Decoded([a, b] + rest) == [REPLACEMENT] + Decoded([b] + rest)
  {
    assert ([a, b] + rest)[1..] == [b] + rest;
  }

  lemma {:induction false} AsciiIsDecoded(s: string)
    requires forall i | 0 <= i < |s| :: s[i] < '\U{80}'
    ensures Decoded(s) == s && Size(s) == |s|
  {
    if s != "" {
      assert s == [s[0]] + s[1..];
      AsciiIsDecoded(s[1..]);
    }
  }

  /** Bytes that stand for no character take up three times as much when they are decoded. */
  lemma {:induction false} UndecodableIsTriple(n: nat)
    ensures Size(Decoded(seq(n, _ => '\U{FF}'))) == 3 * n
  {
    if n > 0 {
      var s := seq(n, _ => '\U{FF}');
      assert s[1..] == seq(n - 1, _ => '\U{FF}');
      UndecodableIsTriple(n - 1);
      SizeOfMore(REPLACEMENT, Decoded(s[1..]));
    }
  }
}
