/** Decimal numerals and `Array.prototype.join(",")` over numbers. */
module Decimals {

  predicate IsDigit(c: char) {
    '0' <= c <= '9'
  }

  predicate IsDigits(s: string) {
    forall i :: 0 <= i < |s| ==> IsDigit(s[i])
  }

  function Digit(d: nat): (c: char)
    requires d < 10
    ensures IsDigit(c)
  {
    ('0' as int + d) as char
  }

  /** `String(n)` for an integer below 10^21, where no exponent is printed. */
  function PrintNat(n: nat): (s: string)
    ensures s != "" && IsDigits(s)
  {
    if n < 10 then [Digit(n)] else PrintNat(n / 10) + [Digit(n % 10)]
  }

  function PrintInt(n: int): (s: string)
    ensures s != "" && ',' !in s
  {
    if n < 0 then "-" + PrintNat(-n) else PrintNat(n)
  }

  /** `Number(s)` for a string of digits. */
  function ParseNat(s: string): nat
    requires IsDigits(s)
  {
    if s == "" then 0 else ParseNat(s[..|s| - 1]) * 10 + (s[|s| - 1] as int - '0' as int)
  }

  lemma {:induction false} ParsePrintNat(n: nat)
    ensures ParseNat(PrintNat(n)) == n
  {
    var s := PrintNat(n);
    if n < 10 {
      assert s[..0] == "";
    } else {
      ParsePrintNat(n / 10);
      assert s[..|s| - 1] == PrintNat(n / 10);
    }
  }

  lemma {:induction false} PrintNatLeadingDigit(n: nat)
    ensures PrintNat(n)[0] == '0' <==> n == 0
  {
    if n >= 10 {
      PrintNatLeadingDigit(n / 10);
    }
  }

  /** A numeral without a leading zero is the print of its own value. */
  lemma {:induction false} PrintParseNat(s: string)
    requires IsDigits(s) && s != "" && (s[0] != '0' || |s| == 1)
    ensures PrintNat(ParseNat(s)) == s
    ensures s[0] != '0' ==> ParseNat(s) > 0
  {
    var front, last := s[..|s| - 1], s[|s| - 1];
    if |s| == 1 {
      assert front == "";
    } else {
      PrintParseNat(front);
      var n := ParseNat(s);
      assert n / 10 == ParseNat(front) && Digit(n % 10) == last;
    }
  }

  lemma PrintIntInjective(a: int, b: int)
    requires PrintInt(a) == PrintInt(b)
    ensures a == b
  {
    if a < 0 || b < 0 {
      assert PrintInt(a)[0] == '-' <==> a < 0;
      assert PrintInt(b)[0] == '-' <==> b < 0;
      assert PrintInt(a)[1..] == PrintNat(-a) && PrintInt(b)[1..] == PrintNat(-b);
      ParsePrintNat(-a);
      ParsePrintNat(-b);
    } else {
      ParsePrintNat(a);
      ParsePrintNat(b);
    }
  }

  // ------------------------------------------------------------------- join

  /** `ids.join(",")`. */
  function Join(ids: seq<int>): string {
    if ids == [] then ""
    else if |ids| == 1 then PrintInt(ids[0])
    else PrintInt(ids[0]) + "," + Join(ids[1..])
  }

  /** The text that follows the first element. */
  function JoinTail(ids: seq<int>): string {
    if ids == [] then "" else "," + Join(ids)
  }

  lemma JoinCons(ids: seq<int>)
    requires ids != []
    ensures Join(ids) == PrintInt(ids[0]) + JoinTail(ids[1..])
  {
  }

  /** Comma-free heads before comma-led (or empty) tails are determined. */
  lemma SplitAtComma(x: string, rest: string, y: string, rest': string)
    requires ',' !in x && ',' !in y
    requires rest == "" || rest[0] == ','
    requires rest' == "" || rest'[0] == ','
    requires x + rest == y + rest'
    ensures x == y && rest == rest'
  {
    var whole := x + rest;
    assert forall i :: 0 <= i < |x| ==> whole[i] == x[i] && x[i] in x;
    assert forall i :: 0 <= i < |y| ==> whole[i] == y[i] && y[i] in y;
    assert rest != "" ==> whole[|x|] == ',';
    assert rest' != "" ==> whole[|y|] == ',';
    assert |x| == |y|;
    assert x == whole[..|x|] == y;
    assert rest == whole[|x|..] == rest';
  }

  /** Equal joined texts come from equal lists. */
  lemma {:induction false} JoinInjective(a: seq<int>, b: seq<int>)
    requires Join(a) == Join(b)
    ensures a == b
    decreases a, 0
  {
    if a != [] && b != [] {
      JoinCons(a);
      JoinCons(b);
      SplitAtComma(PrintInt(a[0]), JoinTail(a[1..]), PrintInt(b[0]), JoinTail(b[1..]));
      PrintIntInjective(a[0], b[0]);
      JoinTailInjective(a[1..], b[1..]);
      assert a == [a[0]] + a[1..] && b == [b[0]] + b[1..];
    }
  }

  lemma {:induction false} JoinTailInjective(a: seq<int>, b: seq<int>)
    requires JoinTail(a) == JoinTail(b)
    ensures a == b
    decreases a, 1
  {
    if a != [] && b != [] {
      assert JoinTail(a)[1..] == Join(a) && JoinTail(b)[1..] == Join(b);
      JoinInjective(a, b);
    }
  }
}
