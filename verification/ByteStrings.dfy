/**
 * Byte strings, their big-endian value, and the hexadecimal text that
 * `Buffer`, `BigInt` and `String.prototype.padStart` read and write.
 */
module ByteStrings {

  type byte = b: int | 0 <= b < 256

  type Bytes = seq<byte>

  // ---------------------------------------------------------------- numbers

  function Power(base: nat, exponent: nat): (p: nat)
    ensures base > 0 ==> p > 0
  {
    if exponent == 0 then 1 else base * Power(base, exponent - 1)
  }

  /** The unsigned big-endian value of a byte string. */
  function ValueOf(b: Bytes): nat {
    if b == [] then 0 else ValueOf(b[..|b| - 1]) * 256 + b[|b| - 1]
  }

  /** The `width` low bytes of `n`, most significant first. */
  function Fixed(n: nat, width: nat): (b: Bytes)
    ensures |b| == width
  {
    if width == 0 then [] else Fixed(n / 256, width - 1) + [n % 256]
  }

  lemma {:induction false} ValueOfFixed(n: nat, width: nat)
    requires n < Power(256, width)
    ensures ValueOf(Fixed(n, width)) == n
  {
    if width > 0 {
      ValueOfFixed(n / 256, width - 1);
      var b := Fixed(n, width);
      assert b[..width - 1] == Fixed(n / 256, width - 1);
    }
  }

  lemma {:induction false} FixedValueOf(b: Bytes)
    ensures ValueOf(b) < Power(256, |b|)
    ensures Fixed(ValueOf(b), |b|) == b
  {
    if b != [] {
      var front := b[..|b| - 1];
      FixedValueOf(front);
      assert ValueOf(b) / 256 == ValueOf(front);
      assert b == front + [b[|b| - 1]];
    }
  }

  /** Leading zero bytes do not change the value. */
  lemma {:induction false} ValueOfLeadingZero(b: Bytes)
    ensures ValueOf([0] + b) == ValueOf(b)
  {
    if b == [] {
      assert ([0] + b)[..0] == [];
    } else {
      var front := b[..|b| - 1];
      assert ([0] + b)[..|b|] == [0] + front;
      ValueOfLeadingZero(front);
    }
  }

  // -------------------------------------------------------------------- hex

  function HexDigit(d: nat): (c: char)
    requires d < 16
  {
    (if d < 10 then '0' as int + d else 'a' as int + d - 10) as char
  }

  predicate IsHexDigit(c: char) {
    '0' <= c <= '9' || 'a' <= c <= 'f' || 'A' <= c <= 'F'
  }

  function ToLowerChar(c: char): char {
    if 'A' <= c <= 'Z' then (c as int + 32) as char else c
  }

  /** `s.toLowerCase()` on ASCII letters. */
  function ToLower(s: string): (t: string)
    ensures |t| == |s|
    ensures forall i :: 0 <= i < |s| ==> t[i] == ToLowerChar(s[i])
  {
    seq(|s|, i requires 0 <= i < |s| => ToLowerChar(s[i]))
  }

  /** What `/^[0-9a-f]*$/` accepts. */
  predicate IsLowerHex(s: string) {
    forall i :: 0 <= i < |s| ==> IsHexDigit(s[i]) && !('A' <= s[i] <= 'F')
  }

  /** 32 bytes in lower-case hex, `/^[0-9a-f]{64}$/`. */
  predicate IsHash(s: string) {
    |s| == 64 && IsLowerHex(s)
  }

  function HexValue(c: char): (d: nat)
    requires IsHexDigit(c)
    ensures d < 16
  {
    if c <= '9' then c as int - '0' as int
    else if c <= 'F' then c as int - 'A' as int + 10
    else c as int - 'a' as int + 10
  }

  lemma HexDigitValue(d: nat)
    requires d < 16
    ensures IsHexDigit(HexDigit(d)) && !('A' <= HexDigit(d) <= 'F')
    ensures HexValue(HexDigit(d)) == d
  {
  }

  lemma HexValueDigit(c: char)
    requires IsHexDigit(c) && !('A' <= c <= 'F')
    ensures HexDigit(HexValue(c)) == c
  {
  }

  /** `buffer.toString("hex")`. */
  function HexOf(b: Bytes): (s: string)
    ensures |s| == 2 * |b|
  {
    if b == [] then "" else [HexDigit(b[0] / 16), HexDigit(b[0] % 16)] + HexOf(b[1..])
  }

  /** `Buffer.from(s, "hex")`: stops at the first pair that is not two hex digits. */
  function HexDecode(s: string): (b: Bytes)
    ensures 2 * |b| <= |s|
  {
    if |s| >= 2 && IsHexDigit(s[0]) && IsHexDigit(s[1])
    then [HexValue(s[0]) * 16 + HexValue(s[1])] + HexDecode(s[2..])
    else []
  }

  lemma {:induction false} HexOfIsLowerHex(b: Bytes)
    ensures IsLowerHex(HexOf(b))
  {
    if b != [] {
      HexOfIsLowerHex(b[1..]);
      HexDigitValue(b[0] / 16);
      HexDigitValue(b[0] % 16);
    }
  }

  lemma {:induction false} HexDecodeHexOf(b: Bytes)
    ensures HexDecode(HexOf(b)) == b
  {
    if b != [] {
      HexDigitValue(b[0] / 16);
      HexDigitValue(b[0] % 16);
      HexDecodeHexOf(b[1..]);
      assert HexOf(b)[2..] == HexOf(b[1..]);
    }
  }

  lemma HexOfCons(first: byte, rest: Bytes)
    ensures HexOf([first] + rest) == [HexDigit(first / 16), HexDigit(first % 16)] + HexOf(rest)
  {
    assert ([first] + rest)[1..] == rest;
  }

  lemma HexPairRoundTrip(hi: char, lo: char)
    requires IsLowerHex([hi, lo])
    ensures IsHexDigit(hi) && IsHexDigit(lo)
    ensures HexDigit((HexValue(hi) * 16 + HexValue(lo)) / 16) == hi
    ensures HexDigit((HexValue(hi) * 16 + HexValue(lo)) % 16) == lo
  {
    assert [hi, lo][0] == hi && [hi, lo][1] == lo;
    HexValueDigit(hi);
    HexValueDigit(lo);
    assert (HexValue(hi) * 16 + HexValue(lo)) / 16 == HexValue(hi);
  }

  lemma {:induction false} HexOfHexDecode(s: string)
    requires IsLowerHex(s) && |s| % 2 == 0
    ensures HexOf(HexDecode(s)) == s
  {
    if s != "" {
      var hi, lo, tail := s[0], s[1], s[2..];
      assert s == [hi, lo] + tail;
      assert [hi, lo][0] == s[0] && [hi, lo][1] == s[1];
      HexPairRoundTrip(hi, lo);
      HexOfHexDecode(tail);
      var first: byte := HexValue(hi) * 16 + HexValue(lo);
      assert HexDecode(s) == [first] + HexDecode(tail);
      HexOfCons(first, HexDecode(tail));
    }
  }

  lemma HexOfInjective(a: Bytes, b: Bytes)
    requires HexOf(a) == HexOf(b)
    ensures a == b
  {
    HexDecodeHexOf(a);
    HexDecodeHexOf(b);
  }

  lemma {:induction false} HexOfConcat(a: Bytes, b: Bytes)
    ensures HexOf(a + b) == HexOf(a) + HexOf(b)
  {
    if a == [] {
      assert a + b == b;
    } else {
      var first, rest := a[0], a[1..];
      var pair := [HexDigit(first / 16), HexDigit(first % 16)];
      HexOfConcat(rest, b);
      assert HexOf(a + b) == pair + (HexOf(rest) + HexOf(b)) by {
        assert a + b == [first] + (rest + b);
        HexOfCons(first, rest + b);
      }
      assert pair + (HexOf(rest) + HexOf(b)) == pair + HexOf(rest) + HexOf(b);
    }
  }

  // ----------------------------------------------------- BigInt and padding

  /** `BigInt("0x" + s)` for a string of hex digits. */
  function ParseHex(s: string): nat
    requires forall i :: 0 <= i < |s| ==> IsHexDigit(s[i])
  {
    if s == "" then 0 else ParseHex(s[..|s| - 1]) * 16 + HexValue(s[|s| - 1])
  }

  /** `n.toString(16)`: no leading zeros. */
  function PrintHex(n: nat): string {
    if n < 16 then [HexDigit(n)] else PrintHex(n / 16) + [HexDigit(n % 16)]
  }

  /** `s.padStart(width, fill)`. */
  function PadStart(s: string, width: nat, fill: char): string {
    if |s| >= width then s else seq(width - |s|, _ => fill) + s
  }

  /** Exactly `width` hex digits of `n`. */
  function FixedHex(n: nat, width: nat): (s: string)
    ensures |s| == width
  {
    if width == 0 then "" else FixedHex(n / 16, width - 1) + [HexDigit(n % 16)]
  }

  /** Reading back the hex print of a buffer gives its big-endian value. */
  lemma {:induction false} ParseHexOf(b: Bytes)
    ensures IsLowerHex(HexOf(b)) && ParseHex(HexOf(b)) == ValueOf(b)
  {
    HexOfIsLowerHex(b);
    if b != [] {
      var front, last := b[..|b| - 1], b[|b| - 1];
      ParseHexOf(front);
      assert b == front + [last];
      HexOfConcat(front, [last]);
      var s := HexOf(front);
      var hi, lo := HexDigit(last / 16), HexDigit(last % 16);
      assert HexOf([last]) == [hi, lo];
      assert HexOf(b) == s + [hi, lo];
      HexDigitValue(last / 16);
      HexDigitValue(last % 16);
      assert (s + [hi, lo])[..|s| + 1] == s + [hi];
      assert (s + [hi])[..|s|] == s;
      assert ParseHex(s + [hi]) == ParseHex(s) * 16 + last / 16;
    }
  }

  lemma {:induction false} FixedHexOfZero(width: nat)
    ensures FixedHex(0, width) == seq(width, _ => '0')
  {
    if width > 0 {
      FixedHexOfZero(width - 1);
    }
  }

  lemma PadStartSnoc(s: string, width: nat, last: char)
    ensures PadStart(s + [last], width + 1, '0') == PadStart(s, width, '0') + [last]
  {
  }

  lemma {:induction false} PadStartPrintHex(n: nat, width: nat)
    requires 0 < width && n < Power(16, width)
    ensures PadStart(PrintHex(n), width, '0') == FixedHex(n, width)
    decreases width
  {
    var last := HexDigit(n % 16);
    if n < 16 {
      FixedHexOfZero(width - 1);
    } else {
      assert width > 1 by {
        assert Power(16, 1) == 16 * Power(16, 0);
      }
      assert Power(16, width) == 16 * Power(16, width - 1);
      PadStartPrintHex(n / 16, width - 1);
      PadStartSnoc(PrintHex(n / 16), width - 1, last);
    }
  }

  lemma {:induction false} FixedHexIsHexOfFixed(n: nat, width: nat)
    ensures FixedHex(n, 2 * width) == HexOf(Fixed(n, width))
  {
    if width > 0 {
      FixedHexIsHexOfFixed(n / 256, width - 1);
      assert n / 16 / 16 == n / 256;
      var last: byte := n % 256;
      HexOfConcat(Fixed(n / 256, width - 1), [last]);
      assert last / 16 == n / 16 % 16 && last % 16 == n % 16;
      assert HexOf([last]) == [HexDigit(n / 16 % 16), HexDigit(n % 16)];
      assert FixedHex(n, 2 * width) == FixedHex(n / 16, 2 * width - 1) + [HexDigit(n % 16)];
      assert FixedHex(n / 16, 2 * width - 1)
          == FixedHex(n / 16 / 16, 2 * width - 2) + [HexDigit(n / 16 % 16)];
    }
  }

  lemma {:induction false} PowerSquared(width: nat)
    ensures Power(16, 2 * width) == Power(256, width)
  {
    if width > 0 {
      PowerSquared(width - 1);
      assert Power(16, 2 * width) == 16 * Power(16, 2 * width - 1);
      assert Power(16, 2 * width - 1) == 16 * Power(16, 2 * width - 2);
    }
  }

  /** Printing, padding and decoding a number yields its fixed-width bytes. */
  lemma PrintPadDecode(n: nat, width: nat)
    requires 0 < width && n < Power(256, width)
    ensures HexDecode(PadStart(PrintHex(n), 2 * width, '0')) == Fixed(n, width)
  {
    PowerSquared(width);
    PadStartPrintHex(n, 2 * width);
    FixedHexIsHexOfFixed(n, width);
    HexDecodeHexOf(Fixed(n, width));
  }
}
