/**
 * `compactSignature`: a DER ECDSA signature (RFC 3279 section 2.2.3, with the
 * definite short-form lengths of ITU-T X.690 section 8.1.3) becomes the 64-byte
 * low-S form.
 */
module DerSignature {
  import opened Wrappers
  import opened ByteStrings

  /** The order of the secp256r1 group. */
  const N: nat := 0xffffffff00000000ffffffffffffffffbce6faada7179e84f3b9cac2fc632551

  datatype Malformed =
    | TooShort
    | MissingSequenceTag
    | LongFormLength
    | SequenceDoesNotSpan
    | MissingRTag
    | RLengthOutOfRange
    | ROverruns
    | MissingSTag
    | SLengthOutOfRange
    | SDoesNotEndBuffer
    | ROutOfRange
    | SOutOfRange

  /** `BigInt("0x" + b.toString("hex"))`. */
  function ReadInteger(b: Bytes): nat {
    HexOfIsLowerHex(b);
    ParseHex(HexOf(b))
  }

  /** `Buffer.from(n.toString(16).padStart(64, "0"), "hex")`. */
  function PrintInteger(n: nat): Bytes {
    HexDecode(PadStart(PrintHex(n), 64, '0'))
  }

  function CompactSignature(der: Bytes): Result<Bytes, Malformed> {
    if |der| < 8 then Err(TooShort)
    else if der[0] != 0x30 then Err(MissingSequenceTag)
    else if der[1] >= 0x80 then Err(LongFormLength)
    else if der[1] != |der| - 2 then Err(SequenceDoesNotSpan)
    else if der[2] != 0x02 then Err(MissingRTag)
    else
      var rLength := der[3];
      if rLength < 1 || rLength > 33 then Err(RLengthOutOfRange)
      else if 4 + rLength + 2 > |der| then Err(ROverruns)
      else
        var r := der[4..4 + rLength];
        var sTag := 4 + rLength;
        if der[sTag] != 0x02 then Err(MissingSTag)
        else
          var sLength := der[sTag + 1];
          if sLength < 1 || sLength > 33 then Err(SLengthOutOfRange)
          else if sTag + 2 + sLength != |der| then Err(SDoesNotEndBuffer)
          else CompactIntegers(ReadInteger(r), ReadInteger(der[sTag + 2..]))
  }

  function CompactIntegers(r: nat, s: nat): Result<Bytes, Malformed> {
    if r < 1 || r >= N then Err(ROutOfRange)
    else if s < 1 || s >= N then Err(SOutOfRange)
    else
      var lowS := if s > N / 2 then N - s else s;
      Ok(PrintInteger(r) + PrintInteger(lowS))
  }

  // ------------------------------------------------------------ the meaning

  predicate IsScalar(n: nat) {
    1 <= n < N
  }

  /** The smaller of `s` and its negation modulo `N`. */
  function LowS(s: nat): nat
    requires IsScalar(s)
  {
    if s <= N - s then s else N - s
  }

  /** SEQUENCE { INTEGER r, INTEGER s } with the given contents octets. */
  function DerSequence(r: Bytes, s: Bytes): (der: Bytes)
    requires 1 <= |r| <= 33 && 1 <= |s| <= 33
    ensures |der| == 6 + |r| + |s|
  {
    [0x30, 4 + |r| + |s|, 0x02, |r|] + r + [0x02, |s|] + s
  }

  /** `der` is an accepted structure whose integers are curve scalars. */
  ghost predicate IsSignatureWith(der: Bytes, r: Bytes, s: Bytes) {
    && 1 <= |r| <= 33
    && 1 <= |s| <= 33
    && der == DerSequence(r, s)
    && IsScalar(ValueOf(r))
    && IsScalar(ValueOf(s))
  }

  lemma ReadIntegerIsValue(b: Bytes)
    ensures ReadInteger(b) == ValueOf(b)
  {
    ParseHexOf(b);
  }

  lemma ScalarFits(n: nat)
    requires n < N
    ensures n < Power(256, 32)
  {
    assert Power(256, 8) == 0x1_0000_0000_0000_0000;
    assert Power(256, 16) == 0x1_00000000_00000000_00000000_00000000;
    assert Power(256, 24) == 0x1_00000000_00000000_00000000_00000000_00000000_00000000;
    assert Power(256, 32)
        == 0x1_00000000_00000000_00000000_00000000_00000000_00000000_00000000_00000000;
  }

  lemma PrintIntegerIsFixed(n: nat)
    requires n < N
    ensures PrintInteger(n) == Fixed(n, 32)
  {
    ScalarFits(n);
    PrintPadDecode(n, 32);
  }

  lemma CompactIntegersMeaning(r: nat, s: nat)
    ensures CompactIntegers(r, s).Ok? <==> IsScalar(r) && IsScalar(s)
    ensures IsScalar(r) && IsScalar(s) ==>
              CompactIntegers(r, s) == Ok(Fixed(r, 32) + Fixed(LowS(s), 32))
  {
    if IsScalar(r) && IsScalar(s) {
      PrintIntegerIsFixed(r);
      PrintIntegerIsFixed(LowS(s));
    }
  }

  lemma SequenceParts(r: Bytes, s: Bytes)
    requires 1 <= |r| <= 33 && 1 <= |s| <= 33
    ensures
      var der := DerSequence(r, s);
      && der[..4] == [0x30, 4 + |r| + |s|, 0x02, |r|]
      && der[4..4 + |r|] == r
      && der[4 + |r|..6 + |r|] == [0x02, |s|]
      && der[6 + |r|..] == s
  {
  }

  /** The parser undoes `DerSequence`, whatever the two integers are. */
  lemma ParsesSequence(r: Bytes, s: Bytes)
    requires 1 <= |r| <= 33 && 1 <= |s| <= 33
    ensures CompactSignature(DerSequence(r, s)) == CompactIntegers(ValueOf(r), ValueOf(s))
  {
    var der := DerSequence(r, s);
    SequenceParts(r, s);
    assert der[0] == der[..4][0] && der[1] == der[..4][1];
    assert der[2] == der[..4][2] && der[3] == der[..4][3];
    assert der[4 + |r|] == der[4 + |r|..6 + |r|][0] && der[5 + |r|] == der[4 + |r|..6 + |r|][1];
    ReadIntegerIsValue(r);
    ReadIntegerIsValue(s);
  }

  lemma FourParts(der: Bytes, i: nat)
    requires 4 <= i && i + 2 <= |der|
    ensures der == [der[0], der[1], der[2], der[3]] + der[4..i] + [der[i], der[i + 1]] + der[i + 2..]
  {
  }

  lemma PrefixIsSequence(der: Bytes, rLength: nat)
    requires 1 <= rLength <= 33 && 6 + rLength < |der| <= 39 + rLength
    requires der[0] == 0x30 && der[1] == |der| - 2 && der[2] == 0x02 && der[3] == rLength
    requires der[4 + rLength] == 0x02 && der[5 + rLength] == |der| - 6 - rLength
    ensures der == DerSequence(der[4..4 + rLength], der[6 + rLength..])
  {
    FourParts(der, 4 + rLength);
  }

  /** The tags and lengths of a buffer that the parser accepts. */
  lemma AcceptedShape(der: Bytes)
    requires CompactSignature(der).Ok?
    ensures |der| >= 8 && der[0] == 0x30 && der[1] == |der| - 2 && der[2] == 0x02
    ensures 1 <= der[3] <= 33 && 6 + der[3] < |der| <= 39 + der[3]
    ensures der[4 + der[3]] == 0x02 && der[5 + der[3]] == |der| - 6 - der[3]
  {
  }

  lemma SequenceAcceptedIff(r: Bytes, s: Bytes)
    requires 1 <= |r| <= 33 && 1 <= |s| <= 33
    ensures CompactSignature(DerSequence(r, s)).Ok? <==> IsSignatureWith(DerSequence(r, s), r, s)
  {
    ParsesSequence(r, s);
    CompactIntegersMeaning(ValueOf(r), ValueOf(s));
  }

  /** Whatever the parser accepts is a `DerSequence` of the slices it took. */
  lemma AcceptedIsSequence(der: Bytes)
    requires CompactSignature(der).Ok?
    ensures exists r, s :: IsSignatureWith(der, r, s)
  {
    AcceptedShape(der);
    var r, s := der[4..4 + der[3]], der[6 + der[3]..];
    PrefixIsSequence(der, der[3]);
    SequenceAcceptedIff(r, s);
  }

  /**
   * A buffer is accepted exactly when it is a short-form SEQUENCE of two
   * INTEGERs that spans it, each 1 to 33 octets long and in [1, N - 1].
   */
  lemma AcceptsExactly(der: Bytes)
    ensures CompactSignature(der).Ok? <==> exists r, s :: IsSignatureWith(der, r, s)
  {
    if CompactSignature(der).Ok? {
      AcceptedIsSequence(der);
    }
    if r, s :| IsSignatureWith(der, r, s) {
      SequenceAcceptedIff(r, s);
    }
  }

  // --------------------------------------------------- canonical DER input

  function MinimalBytes(n: nat): (b: Bytes)
    ensures |b| > 0
  {
    if n < 256 then [n] else MinimalBytes(n / 256) + [n % 256]
  }

  /** The DER contents octets of a non-negative INTEGER (X.690 section 8.3). */
  function DerInteger(n: nat): (b: Bytes)
    ensures |b| > 0
  {
    var b := MinimalBytes(n);
    if b[0] >= 0x80 then [0] + b else b
  }

  lemma {:induction false} MinimalBytesValue(n: nat, width: nat)
    requires 0 < width && n < Power(256, width)
    ensures |MinimalBytes(n)| <= width
    ensures ValueOf(MinimalBytes(n)) == n
    decreases width
  {
    if n < 256 {
      assert ValueOf([n]) == n by {
        assert [n][..0] == [];
      }
    } else {
      assert width > 1 by {
        assert Power(256, 1) == 256 * Power(256, 0);
      }
      MinimalBytesValue(n / 256, width - 1);
      var b := MinimalBytes(n);
      assert b[..|b| - 1] == MinimalBytes(n / 256);
    }
  }

  lemma DerIntegerValue(n: nat)
    requires IsScalar(n)
    ensures |DerInteger(n)| <= 33
    ensures ValueOf(DerInteger(n)) == n
  {
    ScalarFits(n);
    MinimalBytesValue(n, 32);
    ValueOfLeadingZero(MinimalBytes(n));
  }

  /** The DER encoding of the signature (r, s). */
  function DerEncode(r: nat, s: nat): Bytes
    requires IsScalar(r) && IsScalar(s)
  {
    DerIntegerValue(r);
    DerIntegerValue(s);
    DerSequence(DerInteger(r), DerInteger(s))
  }

  /** Every signature in range becomes big-endian r followed by low-S, 32 bytes each. */
  lemma CompactsEverySignature(r: nat, s: nat)
    requires IsScalar(r) && IsScalar(s)
    ensures CompactSignature(DerEncode(r, s)) == Ok(Fixed(r, 32) + Fixed(LowS(s), 32))
  {
    DerIntegerValue(r);
    DerIntegerValue(s);
    ParsesSequence(DerInteger(r), DerInteger(s));
    CompactIntegersMeaning(r, s);
  }

  /** Reading the 64 output bytes back gives r and the low representative of +-s. */
  lemma OutputDecodes(r: nat, s: nat)
    requires IsScalar(r) && IsScalar(s)
    ensures CompactSignature(DerEncode(r, s)).Ok?
    ensures
      var compact := CompactSignature(DerEncode(r, s)).value;
      && |compact| == 64
      && ValueOf(compact[..32]) == r
      && (ValueOf(compact[32..]) == s || ValueOf(compact[32..]) == N - s)
      && 1 <= ValueOf(compact[32..]) <= N / 2
  {
    CompactsEverySignature(r, s);
    var compact := Fixed(r, 32) + Fixed(LowS(s), 32);
    assert compact[..32] == Fixed(r, 32) && compact[32..] == Fixed(LowS(s), 32);
    ScalarFits(r);
    ScalarFits(LowS(s));
    ValueOfFixed(r, 32);
    ValueOfFixed(LowS(s), 32);
  }

  /** Two signatures compact alike exactly when they differ only in the sign of s. */
  lemma SameCompactFormIff(r: nat, s: nat, r': nat, s': nat)
    requires IsScalar(r) && IsScalar(s) && IsScalar(r') && IsScalar(s')
    ensures CompactSignature(DerEncode(r, s)) == CompactSignature(DerEncode(r', s'))
       <==> r == r' && (s == s' || s == N - s')
  {
    CompactsEverySignature(r, s);
    CompactsEverySignature(r', s');
    ScalarFits(r);
    ScalarFits(LowS(s));
    ScalarFits(r');
    ScalarFits(LowS(s'));
    FixedPairInjective(r, LowS(s), r', LowS(s'), 32);
    assert LowS(s) == LowS(s') <==> s == s' || s == N - s';
  }

  lemma FixedPairInjective(a: nat, b: nat, c: nat, d: nat, width: nat)
    requires a < Power(256, width) && b < Power(256, width)
    requires c < Power(256, width) && d < Power(256, width)
    ensures Fixed(a, width) + Fixed(b, width) == Fixed(c, width) + Fixed(d, width)
       <==> a == c && b == d
  {
    ValueOfFixed(a, width);
    ValueOfFixed(b, width);
    ValueOfFixed(c, width);
    ValueOfFixed(d, width);
    SplitEqual(Fixed(a, width), Fixed(b, width), Fixed(c, width), Fixed(d, width));
  }

  lemma SplitEqual(a: Bytes, b: Bytes, c: Bytes, d: Bytes)
    requires |a| == |c|
    ensures a + b == c + d <==> a == c && b == d
  {
    assert (a + b)[..|a|] == a && (a + b)[|a|..] == b;
    assert (c + d)[..|a|] == c && (c + d)[|a|..] == d;
  }

  /**
   * The accepted INTEGERs need not be minimal: a redundant zero octet in front
   * of a signature's r changes nothing, as long as it stays within 33 octets.
   */
  lemma LeadingZeroAccepted(r: Bytes, s: Bytes)
    requires 1 <= |r| <= 32 && 1 <= |s| <= 33
    ensures CompactSignature(DerSequence([0] + r, s)) == CompactSignature(DerSequence(r, s))
  {
    ParsesSequence([0] + r, s);
    ParsesSequence(r, s);
    ValueOfLeadingZero(r);
  }
}
