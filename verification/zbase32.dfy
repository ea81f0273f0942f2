/** The z-base-32 encoder of Web Key Directory lookups. */
module ZBase32 {
  import opened Common

  type Byte = b: int | 0 <= b < 256
  type Digit = d: int | 0 <= d < 32

  const U32: int := 0x1_0000_0000
  const ALPHABET := "ybndrfg8ejkmcpqxot1uwisza345h769"

  // ---- bits ----

  /** The low n bits of v, the most significant first. */
  function Bits(v: int, n: nat): (r: seq<bool>)
    ensures |r| == n
    decreases n
  {
    if n == 0 then [] else Bits(v / 2, n - 1) + [v % 2 == 1]
  }

  function ByteBits(bytes: seq<Byte>): (r: seq<bool>)
    ensures |r| == 8 * |bytes|
  {
    if bytes == [] then [] else ByteBits(bytes[..|bytes| - 1]) + Bits(bytes[|bytes| - 1], 8)
  }

  function DigitBits(digits: seq<Digit>): (r: seq<bool>)
    ensures |r| == 5 * |digits|
  {
    if digits == [] then [] else DigitBits(digits[..|digits| - 1]) + Bits(digits[|digits| - 1], 5)
  }

  function Zeros(n: nat): (r: seq<bool>)
    ensures |r| == n
  {
    seq(n, _ => false)
  }

  function Shl(v: int, n: nat): int {
    if n == 0 then v else Shl(v, n - 1) * 2
  }

  function Shr(v: int, n: nat): int {
    if n == 0 then v else Shr(v, n - 1) / 2
  }

  lemma {:induction false} BitsOfShr(v: int, n: nat, k: nat)
    ensures Bits(v, n + k) == Bits(Shr(v, k), n) + Bits(v, k)
    decreases k
  {
    if k == 0 {
      assert Bits(v, n) + [] == Bits(v, n);
    } else {
      ShrFirst(v, k);
      BitsOfShr(v / 2, n, k - 1);
      assert Bits(v, n + k) == Bits(v / 2, n + (k - 1)) + [v % 2 == 1];
    }
  }

  lemma {:induction false} ShrFirst(v: int, k: nat)
    requires k > 0
    ensures Shr(v, k) == Shr(v / 2, k - 1)
  {
    if k > 1 {
      ShrFirst(v, k - 1);
    }
  }

  /** The low n bits do not see multiples of a higher power of two. */
  lemma {:induction false} BitsIgnoreHigh(v: int, t: int, m: nat, n: nat)
    requires n <= m
    ensures Bits(v + Shl(t, m), n) == Bits(v, n)
    decreases n
  {
    if n > 0 {
      assert Shl(t, m) == Shl(t, m - 1) * 2;
      BitsIgnoreHigh(v / 2, t, m - 1, n - 1);
      assert (v + Shl(t, m - 1) * 2) / 2 == v / 2 + Shl(t, m - 1);
      assert (v + Shl(t, m - 1) * 2) % 2 == v % 2;
    }
  }

  lemma {:induction false} Shl8(t: int)
    ensures Shl(t, 4) == 16 * t && Shl(t, 5) == 32 * t && Shl(t, 8) == 256 * t
  {
    assert Shl(t, 0) == t;
    assert Shl(t, 1) == 2 * t;
    assert Shl(t, 2) == 4 * t;
    assert Shl(t, 3) == 8 * t;
    assert Shl(t, 4) == 16 * t;
    assert Shl(t, 5) == 32 * t;
    assert Shl(t, 6) == 64 * t;
    assert Shl(t, 7) == 128 * t;
  }

  lemma {:induction false} ShlSplit(v: int, j: nat, k: nat)
    ensures Shl(v, j + k) == Shl(Shl(v, j), k)
  {
    if k > 0 {
      ShlSplit(v, j, k - 1);
    }
  }

  lemma {:induction false} Shl32(t: int)
    ensures Shl(t, 32) == U32 * t
  {
    ShlSplit(t, 8, 24);
    ShlSplit(256 * t, 8, 16);
    ShlSplit(65536 * t, 8, 8);
    Shl8(t);
    Shl8(256 * t);
    Shl8(65536 * t);
    Shl8(0x100_0000 * t);
  }

  /** Wrapping to 32 bits changes no lower bit. */
  lemma {:induction false} BitsWrap(v: int, n: nat)
    requires n <= 32
    ensures Bits(v % U32, n) == Bits(v, n)
  {
    Shl32(v / U32);
    BitsIgnoreHigh(v % U32, v / U32, 32, n);
  }

  lemma {:induction false} BitsMask(v: int)
    ensures Bits(v % 32, 5) == Bits(v, 5)
  {
    Shl8(v / 32);
    BitsIgnoreHigh(v % 32, v / 32, 5, 5);
  }

  /** A byte pushed in from below. */
  lemma BitsPush(buf: int, b: Byte, n: nat)
    ensures Bits(buf * 256 + b, n + 8) == Bits(buf, n) + Bits(b, 8)
  {
    Shl8(buf);
    Shl8(1);
    BitsOfShr(buf * 256 + b, n, 8);
    ShrDropsPushed(buf, b, 8);
    BitsIgnoreHigh(b, buf, 8, 8);
  }

  lemma {:induction false} ShrDropsPushed(v: int, low: int, n: nat)
    requires 0 <= low < Shl(1, n)
    ensures Shr(Shl(v, n) + low, n) == v
  {
    if n > 0 {
      ShrFirst(Shl(v, n) + low, n);
      ShrDropsPushed(v, low / 2, n - 1);
      assert (Shl(v, n) + low) / 2 == Shl(v, n - 1) + low / 2;
    }
  }

  lemma {:induction false} BitsOfShl(v: int, n: nat, k: nat)
    ensures Bits(Shl(v, k), n + k) == Bits(v, n) + Zeros(k)
  {
    if k == 0 {
      assert Bits(v, n) + Zeros(0) == Bits(v, n);
    } else {
      BitsOfShl(v, n, k - 1);
      assert Zeros(k) == Zeros(k - 1) + [false];
      assert Shl(v, k) / 2 == Shl(v, k - 1) && Shl(v, k) % 2 == 0;
    }
  }

  // ---- the encoder ----

  /** The unused bits of the last digit. */
  function Fill(n: nat): nat {
    (5 - n % 5) % 5
  }

  /** The text of a sequence of digits. */
  function Spell(digits: seq<Digit>): string {
    seq(|digits|, i requires 0 <= i < |digits| => ALPHABET[digits[i]])
  }

  /** The digits are the bits of the bytes in groups of five, the last filled with zeros. */
  predicate Groups(digits: seq<Digit>, bytes: seq<Byte>) {
    DigitBits(digits) == ByteBits(bytes) + Zeros(Fill(8 * |bytes|))
  }

  lemma GroupCount(digits: seq<Digit>, bytes: seq<Byte>)
    requires Groups(digits, bytes)
    ensures |digits| == (8 * |bytes| + 4) / 5
  {
    assert 5 * |digits| == 8 * |bytes| + Fill(8 * |bytes|);
  }

  /** Every group spelled. */
  method ZBase32Encode(bytes: seq<Byte>) returns (out: string)
    ensures |out| == (8 * |bytes| + 4) / 5 && IsDigits(DigitsOf(out))
    ensures Groups(DigitsOf(out), bytes) && Decode(out) == bytes
  {
    hide Bits, ByteBits, DigitBits, Shl, Shr, Spell, Fill, Zeros, DigitsOf, BytesOf;
    var buf, bits: nat := 0, 0;
    ghost var digits: seq<Digit> := [];
    out := "";
    NothingYet(bytes);
    for i := 0 to |bytes|
      invariant 0 <= buf < U32 && bits < 5 && out == Spell(digits)
      invariant DigitBits(digits) + Bits(buf, bits) == ByteBits(bytes[..i])
    {
      var b := bytes[i];
      PushByte(DigitBits(digits), bytes, i, buf, bits);
      buf := (buf * 256 + b) % U32;
      bits := bits + 8;
      while bits >= 5
        invariant 0 <= buf < U32 && bits <= 12 && out == Spell(digits)
        invariant DigitBits(digits) + Bits(buf, bits) == ByteBits(bytes[..i + 1])
      {
        bits := bits - 5;
        var idx := Shr(buf, bits) % 32;
        TakeDigit(digits, buf, bits);
        SpellNext(digits, idx);
        digits := digits + [idx];
        out := out + [ALPHABET[idx]];
      }
    }
    assert bytes[..|bytes|] == bytes;
    assert |DigitBits(digits)| + |Bits(buf, bits)| == |ByteBits(bytes)|;
    FillIs(|digits|, 8 * |bytes|, bits);
    if bits > 0 {
      var idx := Shl(buf, 5 - bits) % U32 % 32;
      LastDigit(digits, buf, bits);
      SpellNext(digits, idx);
      digits := digits + [idx];
      out := out + [ALPHABET[idx]];
    } else {
      NothingLeft(digits, buf, ByteBits(bytes));
    }
    GroupCount(digits, bytes);
    DigitsOfSpelled(digits);
    DecodeUndoesEncode(bytes, digits);
  }

  lemma NothingYet(bytes: seq<Byte>)
    ensures DigitBits([]) + Bits(0, 0) == ByteBits(bytes[..0]) && Spell([]) == ""
  {
  }

  lemma {:induction false} NothingLeft(digits: seq<Digit>, buf: int, bits: seq<bool>)
    requires DigitBits(digits) + Bits(buf, 0) == bits
    ensures DigitBits(digits) == bits + Zeros(0)
  {
  }

  lemma FillIs(m: nat, n: nat, bits: nat)
    requires 5 * m + bits == n && bits < 5
    ensures Fill(n) == if bits == 0 then 0 else 5 - bits
  {
  }

  lemma PushByte(head: seq<bool>, bytes: seq<Byte>, i: nat, buf: int, bits: nat)
    requires i < |bytes| && bits < 5 && head + Bits(buf, bits) == ByteBits(bytes[..i])
    ensures head + Bits((buf * 256 + bytes[i]) % U32, bits + 8) == ByteBits(bytes[..i + 1])
  {
    hide Bits, ByteBits, Shl;
    BitsPush(buf, bytes[i], bits);
    BitsWrap(buf * 256 + bytes[i], bits + 8);
    Associate(head, Bits(buf, bits), Bits(bytes[i], 8));
    ByteBitsNext(bytes, i);
  }

  lemma ByteBitsNext(bytes: seq<Byte>, i: nat)
    requires i < |bytes|
    ensures ByteBits(bytes[..i + 1]) == ByteBits(bytes[..i]) + Bits(bytes[i], 8)
  {
    assert bytes[..i + 1][..i] == bytes[..i];
  }

  lemma {:induction false} TakeDigit(digits: seq<Digit>, buf: int, bits: nat)
    ensures DigitBits(digits + [Shr(buf, bits) % 32]) + Bits(buf, bits) == DigitBits(digits) + Bits(buf, bits + 5)
  {
    hide Bits, Shl, Shr;
    var idx := Shr(buf, bits) % 32;
    BitsOfShr(buf, 5, bits);
    BitsMask(Shr(buf, bits));
    Associate(DigitBits(digits), Bits(idx, 5), Bits(buf, bits));
    DigitBitsNext(digits, idx);
  }

  lemma {:induction false} LastDigit(digits: seq<Digit>, buf: int, bits: nat)
    requires bits < 5
    ensures DigitBits(digits + [Shl(buf, 5 - bits) % U32 % 32]) == DigitBits(digits) + Bits(buf, bits) + Zeros(5 - bits)
  {
    hide Bits, Shl, Zeros;
    var wide := Shl(buf, 5 - bits);
    BitsOfShl(buf, bits, 5 - bits);
    BitsMask(wide % U32);
    BitsWrap(wide, 5);
    Associate(DigitBits(digits), Bits(buf, bits), Zeros(5 - bits));
    DigitBitsNext(digits, wide % U32 % 32);
  }

  lemma {:induction false} DigitBitsNext(digits: seq<Digit>, d: Digit)
    ensures DigitBits(digits + [d]) == DigitBits(digits) + Bits(d, 5)
  {
    assert (digits + [d])[..|digits|] == digits;
  }

  lemma SpellNext(digits: seq<Digit>, d: Digit)
    ensures Spell(digits + [d]) == Spell(digits) + [ALPHABET[d]]
  {
  }

  // ---- a decoder ----

  function Value(bits: seq<bool>): nat {
    if bits == [] then 0 else 2 * Value(bits[..|bits| - 1]) + if bits[|bits| - 1] then 1 else 0
  }

  lemma {:induction false} ValueOfBits(v: int, n: nat)
    requires 0 <= v < Shl(1, n)
    ensures Value(Bits(v, n)) == v
  {
    if n > 0 {
      ValueOfBits(v / 2, n - 1);
      assert Bits(v, n)[..n - 1] == Bits(v / 2, n - 1);
    }
  }

  /** Whole bytes read off a bit sequence; what is left over is dropped. */
  function BytesOf(bits: seq<bool>): seq<int>
    decreases |bits|
  {
    if |bits| < 8 then [] else [Value(bits[..8])] + BytesOf(bits[8..])
  }

  function DigitOf(c: char, from: nat): (d: nat)
    requires from <= 32
    decreases 32 - from
  {
    if from == 32 || ALPHABET[from] == c then from else DigitOf(c, from + 1)
  }

  function DigitsOf(text: string): seq<nat> {
    seq(|text|, i requires 0 <= i < |text| => DigitOf(text[i], 0))
  }

  predicate IsDigits(digits: seq<nat>) {
    forall i | 0 <= i < |digits| :: digits[i] < 32
  }

  function Decode(text: string): seq<int>
    requires IsDigits(DigitsOf(text))
  {
    BytesOf(DigitBits(DigitsOf(text)))
  }

  lemma AlphabetIsDistinct()
    ensures forall i, j | 0 <= i < j < 32 :: ALPHABET[i] != ALPHABET[j]
  {
  }

  lemma {:induction false} DigitOfLetter(d: Digit, from: nat)
    requires from <= d
    ensures DigitOf(ALPHABET[d], from) == d
    decreases d - from
  {
    AlphabetIsDistinct();
    if from < d {
      DigitOfLetter(d, from + 1);
    }
  }

  lemma {:induction false} BytesOfByteBits(bytes: seq<Byte>, rest: seq<bool>)
    requires |rest| < 8
    ensures BytesOf(ByteBits(bytes) + rest) == bytes
    decreases |bytes|
  {
    hide Bits, ByteBits, Shl, Value;
    if bytes == [] {
      assert ByteBits(bytes) + rest == rest;
    } else {
      FirstByte(bytes, rest);
      BytesOfByteBits(bytes[1..], rest);
      assert bytes == [bytes[0]] + bytes[1..];
    }
  }

  lemma {:induction false} FirstByte(bytes: seq<Byte>, rest: seq<bool>)
    requires bytes != []
    ensures var bits := ByteBits(bytes) + rest;
      |bits| >= 8 && Value(bits[..8]) == bytes[0] && bits[8..] == ByteBits(bytes[1..]) + rest
  {
    hide Bits, ByteBits, Value;
    ByteBitsFirst(bytes);
    var first, later := Bits(bytes[0], 8), ByteBits(bytes[1..]);
    Associate(first, later, rest);
    CutBehind(first, later + rest, 0);
    Shl8(1);
    ValueOfBits(bytes[0], 8);
    assert first + (later + rest)[..0] == first;
  }

  lemma {:induction false} ByteBitsFirst(bytes: seq<Byte>)
    requires bytes != []
    ensures ByteBits(bytes) == Bits(bytes[0], 8) + ByteBits(bytes[1..])
  {
    hide Bits;
    if |bytes| == 1 {
      assert bytes[..0] == [] && bytes[1..] == [];
      assert [] + Bits(bytes[0], 8) == Bits(bytes[0], 8) + [];
    } else {
      var fewer, last := bytes[..|bytes| - 1], bytes[|bytes| - 1];
      ByteBitsFirst(fewer);
      assert fewer[1..] == bytes[1..][..|bytes| - 2];
      Associate(Bits(bytes[0], 8), ByteBits(fewer[1..]), Bits(last, 8));
    }
  }

  lemma DigitsOfSpelled(digits: seq<Digit>)
    ensures DigitsOf(Spell(digits)) == digits && |Spell(digits)| == |digits|
  {
    hide DigitOf;
    forall i | 0 <= i < |digits| ensures DigitOf(ALPHABET[digits[i]], 0) == digits[i] {
      DigitOfLetter(digits[i], 0);
    }
  }

  /** The bits of the encoded text, cut into eights, are the bytes. */
  lemma DecodeUndoesEncode(bytes: seq<Byte>, digits: seq<Digit>)
    requires Groups(digits, bytes)
    ensures IsDigits(DigitsOf(Spell(digits))) && Decode(Spell(digits)) == bytes
  {
    hide Bits, ByteBits, DigitBits, DigitOf, BytesOf;
    DigitsOfSpelled(digits);
    BytesOfByteBits(bytes, Zeros(Fill(8 * |bytes|)));
  }
}
