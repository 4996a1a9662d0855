/**
 * Base64 (RFC 4648 section 4) and base64url without padding (section 5), and
 * the lenient decoder of `Buffer.from(s, "base64")`, which accepts both
 * alphabets and ignores unused low bits.
 */
module Base64 {
  import opened ByteStrings

  type sextet = d: int | 0 <= d < 64

  // -------------------------------------------------------------- alphabets

  /** The standard alphabet. */
  function Char(d: sextet): char {
    if d < 26 then ('A' as int + d) as char
    else if d < 52 then ('a' as int + d - 26) as char
    else if d < 62 then ('0' as int + d - 52) as char
    else if d == 62 then '+'
    else '/'
  }

  /** The URL-safe alphabet. */
  function UrlChar(d: sextet): char {
    if d == 62 then '-' else if d == 63 then '_' else Char(d)
  }

  /** `[A-Za-z0-9+/]`. */
  predicate IsChar(c: char) {
    'A' <= c <= 'Z' || 'a' <= c <= 'z' || '0' <= c <= '9' || c == '+' || c == '/'
  }

  predicate IsUrlChar(c: char) {
    (IsChar(c) && c != '+' && c != '/') || c == '-' || c == '_'
  }

  function Value(c: char): (d: sextet)
    requires IsChar(c) || IsUrlChar(c)
  {
    if 'A' <= c <= 'Z' then c as int - 'A' as int
    else if 'a' <= c <= 'z' then c as int - 'a' as int + 26
    else if '0' <= c <= '9' then c as int - '0' as int + 52
    else if c == '+' || c == '-' then 62
    else 63
  }

  lemma CharValue(d: sextet)
    ensures IsChar(Char(d)) && Value(Char(d)) == d
    ensures IsUrlChar(UrlChar(d)) && Value(UrlChar(d)) == d
  {
  }

  lemma ValueChar(c: char)
    ensures IsChar(c) ==> Char(Value(c)) == c
    ensures IsUrlChar(c) ==> UrlChar(Value(c)) == c
  {
  }

  // -------------------------------------------------- regrouping 8 <-> 6 bits

  /** Bits 7-2 of the first octet of a group, and so on. */
  function Sextet0(b0: byte): sextet { b0 / 4 }
  function Sextet1(b0: byte, b1: byte): sextet { b0 % 4 * 16 + b1 / 16 }
  function Sextet2(b1: byte, b2: byte): sextet { b1 % 16 * 4 + b2 / 64 }
  function Sextet3(b2: byte): sextet { b2 % 64 }

  function Octet0(x: sextet, y: sextet): byte { x * 4 + y / 16 }
  function Octet1(y: sextet, z: sextet): byte { y % 16 * 16 + z / 4 }
  function Octet2(z: sextet, w: sextet): byte { z % 4 * 64 + w }

  /** The sextets of a byte string, the last one padded with zero bits. */
  function Sextets(b: Bytes): (d: seq<sextet>)
    ensures |d| == (4 * |b| + 2) / 3
  {
    if |b| == 0 then []
    else if |b| == 1 then [Sextet0(b[0]), Sextet1(b[0], 0)]
    else if |b| == 2 then [Sextet0(b[0]), Sextet1(b[0], b[1]), Sextet2(b[1], 0)]
    else [Sextet0(b[0]), Sextet1(b[0], b[1]), Sextet2(b[1], b[2]), Sextet3(b[2])] + Sextets(b[3..])
  }

  /** The whole bytes in a sextet string; trailing bits are dropped. */
  function Octets(d: seq<sextet>): (b: Bytes)
    ensures |b| == 3 * |d| / 4
  {
    if |d| < 2 then []
    else if |d| == 2 then [Octet0(d[0], d[1])]
    else if |d| == 3 then [Octet0(d[0], d[1]), Octet1(d[1], d[2])]
    else [Octet0(d[0], d[1]), Octet1(d[1], d[2]), Octet2(d[2], d[3])] + Octets(d[4..])
  }

  /** The low bits of the last sextet that no octet carries. */
  function UnusedBits(d: seq<sextet>): nat {
    match |d| % 4
    case 2 => d[|d| - 1] % 16
    case 3 => d[|d| - 1] % 4
    case _ => 0
  }

  /** A sextet string that `Sextets` can produce: no lone sextet, no unused bits set. */
  predicate IsCanonical(d: seq<sextet>) {
    |d| % 4 != 1 && UnusedBits(d) == 0
  }

  lemma OctetsOfGroup(b0: byte, b1: byte, b2: byte)
    ensures Octet0(Sextet0(b0), Sextet1(b0, b1)) == b0
    ensures Octet1(Sextet1(b0, b1), Sextet2(b1, b2)) == b1
    ensures Octet2(Sextet2(b1, b2), Sextet3(b2)) == b2
  {
  }

  lemma SextetsOfGroup(x: sextet, y: sextet, z: sextet, w: sextet)
    ensures Sextet0(Octet0(x, y)) == x
    ensures Sextet1(Octet0(x, y), Octet1(y, z)) == y
    ensures Sextet2(Octet1(y, z), Octet2(z, w)) == z
    ensures Sextet3(Octet2(z, w)) == w
    ensures y % 16 == 0 ==> Sextet1(Octet0(x, y), 0) == y
    ensures z % 4 == 0 ==> Sextet2(Octet1(y, z), 0) == z
  {
  }

  function ValueOfFour(w: int, x: int, y: int, z: int): int {
    0x40000 * w + 0x1000 * x + 0x40 * y + z
  }

  function ValueOfThree(x: int, y: int, z: int): int {
    0x10000 * x + 0x100 * y + z
  }

  /** Each group of four sextets has the bits of three octets, most significant first. */
  lemma {:induction false} GroupsKeepBits(b: Bytes, k: nat)
    requires 3 * k + 2 < |b|
    ensures
      var d := Sextets(b);
      && 4 * k + 3 < |d|
      && ValueOfFour(d[4 * k], d[4 * k + 1], d[4 * k + 2], d[4 * k + 3])
         == ValueOfThree(b[3 * k], b[3 * k + 1], b[3 * k + 2])
  {
    var head := [Sextet0(b[0]), Sextet1(b[0], b[1]), Sextet2(b[1], b[2]), Sextet3(b[2])];
    assert Sextets(b) == head + Sextets(b[3..]);
    if k > 0 {
      GroupsKeepBits(b[3..], k - 1);
    }
  }

  lemma OctetsCons(x: sextet, y: sextet, z: sextet, w: sextet, rest: seq<sextet>)
    ensures Octets([x, y, z, w] + rest) == [Octet0(x, y), Octet1(y, z), Octet2(z, w)] + Octets(rest)
  {
    assert ([x, y, z, w] + rest)[4..] == rest;
  }

  lemma OctetsOfShort(x: sextet, y: sextet, z: sextet)
    ensures Octets([x, y]) == [Octet0(x, y)]
    ensures Octets([x, y, z]) == [Octet0(x, y), Octet1(y, z)]
  {
  }

  lemma {:induction false} OctetsSextets(b: Bytes)
    ensures Octets(Sextets(b)) == b
  {
    if |b| >= 3 {
      var b0, b1, b2, rest := b[0], b[1], b[2], b[3..];
      OctetsSextets(rest);
      OctetsOfGroup(b0, b1, b2);
      OctetsCons(Sextet0(b0), Sextet1(b0, b1), Sextet2(b1, b2), Sextet3(b2), Sextets(rest));
      assert b == [b0, b1, b2] + rest;
    } else if |b| == 2 {
      assert b == [b[0], b[1]];
      OctetsOfShort(Sextet0(b[0]), Sextet1(b[0], b[1]), Sextet2(b[1], 0));
      OctetsOfGroup(b[0], b[1], 0);
    } else if |b| == 1 {
      assert b == [b[0]];
      OctetsOfShort(Sextet0(b[0]), Sextet1(b[0], 0), 0);
      OctetsOfGroup(b[0], 0, 0);
    }
  }

  lemma UnusedBitsOfTail(d: seq<sextet>)
    requires |d| >= 4
    ensures UnusedBits(d) == UnusedBits(d[4..])
    ensures IsCanonical(d) <==> IsCanonical(d[4..])
  {
    var rest := d[4..];
    assert |rest| % 4 == |d| % 4;
    assert rest != [] ==> rest[|rest| - 1] == d[|d| - 1];
  }

  lemma {:induction false} SextetsAreCanonical(b: Bytes)
    ensures IsCanonical(Sextets(b))
  {
    if |b| >= 3 {
      SextetsAreCanonical(b[3..]);
      assert Sextets(b)[4..] == Sextets(b[3..]);
      UnusedBitsOfTail(Sextets(b));
    }
  }

  lemma SextetsCons(b0: byte, b1: byte, b2: byte, rest: Bytes)
    ensures Sextets([b0, b1, b2] + rest)
         == [Sextet0(b0), Sextet1(b0, b1), Sextet2(b1, b2), Sextet3(b2)] + Sextets(rest)
  {
    assert ([b0, b1, b2] + rest)[3..] == rest;
  }

  lemma SextetsOfTwo(x: sextet, y: sextet)
    requires y % 16 == 0
    ensures Sextets(Octets([x, y])) == [x, y]
  {
    OctetsOfShort(x, y, 0);
    SextetsOfGroup(x, y, 0, 0);
  }

  lemma SextetsOfThree(x: sextet, y: sextet, z: sextet)
    requires z % 4 == 0
    ensures Sextets(Octets([x, y, z])) == [x, y, z]
  {
    OctetsOfShort(x, y, z);
    SextetsOfGroup(x, y, z, 0);
  }

  lemma {:induction false} SextetsOctets(d: seq<sextet>)
    requires IsCanonical(d)
    ensures Sextets(Octets(d)) == d
  {
    if |d| == 2 {
      assert d == [d[0], d[1]];
      SextetsOfTwo(d[0], d[1]);
    } else if |d| == 3 {
      assert d == [d[0], d[1], d[2]];
      SextetsOfThree(d[0], d[1], d[2]);
    } else if |d| >= 4 {
      UnusedBitsOfTail(d);
      SextetsOctets(d[4..]);
      SextetsOfGroup(d[0], d[1], d[2], d[3]);
      SextetsCons(Octet0(d[0], d[1]), Octet1(d[1], d[2]), Octet2(d[2], d[3]), Octets(d[4..]));
      assert d == [d[0], d[1], d[2], d[3]] + d[4..];
    }
  }

  /** Regrouping to octets and back is the identity exactly on canonical sextets. */
  lemma RoundTripIffCanonical(d: seq<sextet>)
    ensures Sextets(Octets(d)) == d <==> IsCanonical(d)
  {
    SextetsAreCanonical(Octets(d));
    if IsCanonical(d) {
      SextetsOctets(d);
    }
  }

  // ------------------------------------------------------------------- text

  function Print(d: seq<sextet>): (s: string)
    ensures |s| == |d|
  {
    seq(|d|, i requires 0 <= i < |d| => Char(d[i]))
  }

  function PrintUrl(d: seq<sextet>): (s: string)
    ensures |s| == |d|
  {
    seq(|d|, i requires 0 <= i < |d| => UrlChar(d[i]))
  }

  predicate IsAlphabet(s: string) {
    forall i :: 0 <= i < |s| ==> IsChar(s[i])
  }

  predicate IsUrlAlphabet(s: string) {
    forall i :: 0 <= i < |s| ==> IsUrlChar(s[i])
  }

  function Parse(s: string): (d: seq<sextet>)
    requires forall i :: 0 <= i < |s| ==> IsChar(s[i]) || IsUrlChar(s[i])
    ensures |d| == |s|
  {
    seq(|s|, i requires 0 <= i < |s| => Value(s[i]))
  }

  lemma ParsePrint(d: seq<sextet>)
    ensures IsAlphabet(Print(d)) && Parse(Print(d)) == d
    ensures IsUrlAlphabet(PrintUrl(d)) && Parse(PrintUrl(d)) == d
  {
    forall i | 0 <= i < |d|
      ensures IsChar(Print(d)[i]) && Value(Print(d)[i]) == d[i]
      ensures IsUrlChar(PrintUrl(d)[i]) && Value(PrintUrl(d)[i]) == d[i]
    {
      CharValue(d[i]);
    }
  }

  lemma PrintParse(s: string)
    ensures IsAlphabet(s) ==> Print(Parse(s)) == s
    ensures IsUrlAlphabet(s) ==> PrintUrl(Parse(s)) == s
  {
    if IsAlphabet(s) {
      forall i | 0 <= i < |s|
        ensures Print(Parse(s))[i] == s[i]
      {
        ValueChar(s[i]);
      }
    }
    if IsUrlAlphabet(s) {
      forall i | 0 <= i < |s|
        ensures PrintUrl(Parse(s))[i] == s[i]
      {
        ValueChar(s[i]);
      }
    }
  }

  function Padding(sextets: nat): (s: string)
    ensures |s| <= 3
  {
    match sextets % 4
    case 0 => ""
    case 1 => "==="
    case 2 => "=="
    case 3 => "="
  }

  /** `buffer.toString("base64")`. */
  function Encode(b: Bytes): string {
    Print(Sextets(b)) + Padding(|Sextets(b)|)
  }

  /** The text in front of the first `=`, or all of it. */
  function Body(s: string): (t: string)
    ensures |t| <= |s| && t == s[..|t|]
    ensures |t| < |s| ==> s[|t|] == '='
    ensures '=' !in t
  {
    if s == "" || s[0] == '=' then "" else [s[0]] + Body(s[1..])
  }

  /** The characters of either alphabet, in order; a decoder skips the others. */
  function Significant(s: string): (t: string)
    ensures forall i :: 0 <= i < |t| ==> IsChar(t[i]) || IsUrlChar(t[i])
  {
    if s == "" then ""
    else (if IsChar(s[0]) || IsUrlChar(s[0]) then [s[0]] else "") + Significant(s[1..])
  }

  /** `Buffer.from(s, "base64")`. */
  function Decode(s: string): Bytes {
    Octets(Parse(Significant(Body(s))))
  }

  lemma {:induction false} BodyOfPadded(s: string, padding: string)
    requires '=' !in s
    requires padding == "" || padding[0] == '='
    ensures Body(s + padding) == s
  {
    if s == "" {
      assert s + padding == padding;
    } else {
      BodyOfPadded(s[1..], padding);
      assert (s + padding)[1..] == s[1..] + padding;
    }
  }

  lemma {:induction false} SignificantOfAlphabet(s: string)
    requires forall i :: 0 <= i < |s| ==> IsChar(s[i]) || IsUrlChar(s[i])
    ensures Significant(s) == s
  {
    if s != "" {
      SignificantOfAlphabet(s[1..]);
    }
  }

  /** Decoding alphabet text with proper padding regroups its sextets. */
  lemma DecodePadded(s: string, padding: string)
    requires forall i :: 0 <= i < |s| ==> IsChar(s[i]) || IsUrlChar(s[i])
    requires padding == "" || padding[0] == '='
    ensures Decode(s + padding) == Octets(Parse(s))
  {
    BodyOfPadded(s, padding);
    SignificantOfAlphabet(s);
  }

  lemma DecodeEncode(b: Bytes)
    ensures Decode(Encode(b)) == b
  {
    var d := Sextets(b);
    ParsePrint(d);
    DecodePadded(Print(d), Padding(|d|));
    OctetsSextets(b);
  }

  // ------------------------------------------------------ the strict pattern

  /** `/^(?:[A-Za-z0-9+/]{4})*(?:[A-Za-z0-9+/]{2}==|[A-Za-z0-9+/]{3}=)?$/`. */
  predicate MatchesPattern(s: string) {
    || s == ""
    || (|s| == 4 && IsAlphabet(s[..2]) && s[2..] == "==")
    || (|s| == 4 && IsAlphabet(s[..3]) && s[3..] == "=")
    || (|s| >= 4 && IsAlphabet(s[..4]) && MatchesPattern(s[4..]))
  }

  /** The alphabet text of a padded base64 string, never one over a multiple of four. */
  predicate IsBody(t: string) {
    IsAlphabet(t) && |t| % 4 != 1
  }

  lemma {:induction false} PaddedBodyMatches(t: string)
    requires IsBody(t)
    ensures MatchesPattern(t + Padding(|t|))
  {
    var s := t + Padding(|t|);
    if |t| >= 4 {
      PaddedBodyMatches(t[4..]);
      assert s[..4] == t[..4] && s[4..] == t[4..] + Padding(|t[4..]|);
    } else if t != "" {
      assert s[..|t|] == t && s[|t|..] == Padding(|t|);
    }
  }

  lemma {:induction false} MatchIsPaddedBody(s: string) returns (t: string)
    requires MatchesPattern(s)
    ensures IsBody(t) && s == t + Padding(|t|)
  {
    if s == "" {
      t := "";
    } else if |s| == 4 && IsAlphabet(s[..2]) && s[2..] == "==" {
      t := s[..2];
    } else if |s| == 4 && IsAlphabet(s[..3]) && s[3..] == "=" {
      t := s[..3];
    } else {
      var rest := MatchIsPaddedBody(s[4..]);
      t := s[..4] + rest;
      assert s == s[..4] + s[4..];
      assert Padding(|t|) == Padding(|rest|);
    }
  }

  /** The pattern accepts exactly alphabet text followed by its own padding. */
  lemma PatternShape(s: string)
    ensures MatchesPattern(s) <==> IsBody(Body(s)) && s == Body(s) + Padding(|Body(s)|)
  {
    if MatchesPattern(s) {
      var t := MatchIsPaddedBody(s);
      BodyOfPadded(t, Padding(|t|));
    } else if IsBody(Body(s)) && s == Body(s) + Padding(|Body(s)|) {
      PaddedBodyMatches(Body(s));
      assert false;
    }
  }

  lemma EncodeMatches(b: Bytes)
    ensures MatchesPattern(Encode(b))
  {
    ParsePrint(Sextets(b));
    SextetsAreCanonical(b);
    PaddedBodyMatches(Print(Sextets(b)));
  }

  lemma EncodedBody(b: Bytes)
    ensures IsAlphabet(Body(Encode(b))) && Parse(Body(Encode(b))) == Sextets(b)
  {
    var d := Sextets(b);
    ParsePrint(d);
    BodyOfPadded(Print(d), Padding(|d|));
  }

  /**
   * Text that matches the pattern is what its own decoding encodes to exactly
   * when no unused bit is set in front of the padding.
   */
  lemma ReencodesIffClean(s: string)
    requires MatchesPattern(s)
    ensures IsBody(Body(s))
    ensures Encode(Decode(s)) == s <==> UnusedBits(Parse(Body(s))) == 0
  {
    PatternShape(s);
    var t := Body(s);
    var d := Parse(t);
    assert Decode(s) == Octets(d) by {
      DecodePadded(t, Padding(|t|));
    }
    RoundTripIffCanonical(d);
    EncodedBody(Octets(d));
    if Sextets(Octets(d)) == d {
      PrintParse(t);
      assert Encode(Octets(d)) == s;
    }
  }
}
