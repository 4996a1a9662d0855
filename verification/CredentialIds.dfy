/**
 * Credential ids on their way between base64url text, the bytes packed behind a
 * public key, and the hex form the indexer looks up.
 */
module CredentialIds {
  import opened Wrappers
  import opened ByteStrings
  import opened Base64
  import opened Signers

  /** SECP256R1_PUBLIC_KEY_SIZE. */
  const PUBLIC_KEY_SIZE := 65

  /** `base64url.encode(b)`. */
  function UrlEncode(b: Bytes): string {
    PrintUrl(Sextets(b))
  }

  /** `base64url.toBuffer(id)`; it never throws. */
  function ToBuffer(id: string): Bytes {
    Decode(id)
  }

  datatype CredentialId = Text(id: string) | Raw(bytes: Bytes)

  function BuildKeyData(publicKey: Bytes, credentialId: CredentialId): Bytes {
    publicKey + match credentialId
                case Text(id) => ToBuffer(id)
                case Raw(bytes) => bytes
  }

  function GetCredentialId(signer: Signer): Option<string> {
    if !signer.External? then None
    else if |signer.keyData| <= PUBLIC_KEY_SIZE then None
    else Some(UrlEncode(signer.keyData[PUBLIC_KEY_SIZE..]))
  }

  /** The unpadded base64url text of some byte string. */
  predicate IsCanonicalId(id: string) {
    IsUrlAlphabet(id) && IsCanonical(Parse(id))
  }

  lemma ToBufferUrlEncode(b: Bytes)
    ensures ToBuffer(UrlEncode(b)) == b
    ensures IsCanonicalId(UrlEncode(b))
  {
    var d := Sextets(b);
    ParsePrint(d);
    assert PrintUrl(d) + "" == PrintUrl(d);
    DecodePadded(PrintUrl(d), "");
    OctetsSextets(b);
    SextetsAreCanonical(b);
  }

  /** Decoding and encoding an id gives it back exactly when it is canonical. */
  lemma UrlEncodeToBuffer(id: string)
    ensures UrlEncode(ToBuffer(id)) == id <==> IsCanonicalId(id)
  {
    ToBufferUrlEncode(ToBuffer(id));
    if IsCanonicalId(id) {
      assert id + "" == id;
      DecodePadded(id, "");
      RoundTripIffCanonical(Parse(id));
      PrintParse(id);
    }
  }

  /**
   * Unpacking a signer recovers the id its key data was built from exactly when
   * that id is non-empty canonical base64url.
   */
  lemma RecoversPackedId(verifier: string, publicKey: Bytes, id: string)
    requires |publicKey| == PUBLIC_KEY_SIZE
    ensures GetCredentialId(External(verifier, BuildKeyData(publicKey, Text(id)))) == Some(id)
       <==> id != "" && IsCanonicalId(id)
  {
    var packed := ToBuffer(id);
    assert (publicKey + packed)[PUBLIC_KEY_SIZE..] == packed;
    UrlEncodeToBuffer(id);
    if packed == [] {
      assert UrlEncode(packed) == "";
    }
  }

  /** Raw ids come back as their base64url text; an empty one is lost. */
  lemma RecoversRawId(verifier: string, publicKey: Bytes, id: Bytes)
    requires |publicKey| == PUBLIC_KEY_SIZE
    ensures GetCredentialId(External(verifier, BuildKeyData(publicKey, Raw(id))))
         == if id == [] then None else Some(UrlEncode(id))
  {
    assert (publicKey + id)[PUBLIC_KEY_SIZE..] == id;
  }

  // ------------------------------------------------------ hex normalization

  /** `/^[0-9a-fA-F]+$/`. */
  predicate IsHexText(s: string) {
    s != "" && forall i :: 0 <= i < |s| ==> IsHexDigit(s[i])
  }

  function NormalizeToHex(credentialId: string): string {
    if IsHexText(credentialId) then ToLower(credentialId)
    else HexOf(ToBuffer(credentialId))
  }

  lemma NormalizeFixesLowerHex(s: string)
    requires s != "" && IsLowerHex(s)
    ensures NormalizeToHex(s) == s
  {
    assert forall i :: 0 <= i < |s| ==> ToLowerChar(s[i]) == s[i];
  }

  /** Hex text keeps its digits, whatever their case. */
  lemma NormalizeKeepsHexDigits(s: string)
    requires s != "" && forall i :: 0 <= i < |s| ==> IsHexDigit(s[i])
    ensures |NormalizeToHex(s)| == |s|
    ensures forall i :: 0 <= i < |s| ==>
                          && IsHexDigit(NormalizeToHex(s)[i]) && !('A' <= NormalizeToHex(s)[i] <= 'F')
                          && HexValue(NormalizeToHex(s)[i]) == HexValue(s[i])
  {
    assert forall i :: 0 <= i < |s| ==> NormalizeToHex(s)[i] == ToLowerChar(s[i]);
  }

  /** The result is always lower-case hex, and normalizing it again changes nothing. */
  lemma NormalizeIsLowerHex(s: string)
    ensures IsLowerHex(NormalizeToHex(s))
    ensures NormalizeToHex(NormalizeToHex(s)) == NormalizeToHex(s)
  {
    if IsHexText(s) {
      assert IsLowerHex(ToLower(s));
    } else {
      HexOfIsLowerHex(ToBuffer(s));
    }
    if NormalizeToHex(s) != "" {
      NormalizeFixesLowerHex(NormalizeToHex(s));
    } else {
      assert "" + "" == "";
      DecodePadded("", "");
      assert NormalizeToHex("") == "";
    }
  }

  /**
   * The base64url text of a credential id normalizes to its hex form exactly
   * when that text has a character that is not a hex digit. An id whose text
   * looks like hex is taken for hex and looked up under the wrong key.
   */
  lemma NormalizesEncodedIff(b: Bytes)
    requires b != []
    ensures NormalizeToHex(UrlEncode(b)) == HexOf(b) <==> !IsHexText(UrlEncode(b))
  {
    ToBufferUrlEncode(b);
    var s := UrlEncode(b);
    if IsHexText(s) && ToLower(s) == HexOf(b) {
      assert |s| == (4 * |b| + 2) / 3 && |s| == 2 * |b|;
      assert |b| == 1;
      assert b == [b[0]];
      SingleByteTextIsNotItsHex(b[0]);
      assert false;
    }
  }

  lemma SingleByteTextIsNotItsHex(x: byte)
    ensures IsHexText(UrlEncode([x])) ==> ToLower(UrlEncode([x])) != HexOf([x])
  {
    var s := UrlEncode([x]);
    assert s[1] == UrlChar(Sextet1(x, 0));
    assert Sextet1(x, 0) == x % 4 * 16;
    if IsHexText(s) {
      assert IsHexDigit(s[1]);
      assert x % 4 == 0;
      assert ToLower(s)[1] == 'a';
      assert HexOf([x])[1] == HexDigit(x % 16);
      assert x % 16 != 10;
    }
  }

  /** `n` zero bytes, read as an id, print as `A`s only. */
  lemma {:induction false} ZeroSextets(b: Bytes)
    requires |b| % 3 == 0 && forall i :: 0 <= i < |b| ==> b[i] == 0
    ensures forall i :: 0 <= i < |Sextets(b)| ==> Sextets(b)[i] == 0
  {
    if b != [] {
      ZeroSextets(b[3..]);
    }
  }

  /** An id of 3n zero bytes is looked up under a key that is not its hex. */
  lemma ZeroIdsAreMisread(b: Bytes)
    requires b != [] && |b| % 3 == 0 && forall i :: 0 <= i < |b| ==> b[i] == 0
    ensures NormalizeToHex(UrlEncode(b)) != HexOf(b)
  {
    ZeroSextets(b);
    var s := UrlEncode(b);
    forall i | 0 <= i < |s|
      ensures IsHexDigit(s[i])
    {
      assert s[i] == UrlChar(Sextets(b)[i]);
    }
    NormalizesEncodedIff(b);
  }
}
