/**
 * `toAuthEntry`: the boundary where base64 text, kit objects and foreign objects
 * become authorization entries.
 */
module AuthEntryInput {
  import opened Wrappers
  import opened ByteStrings
  import opened Base64

  /** The XDR codec of the entry type; `decode` is None where it throws. */
  datatype Codec<!E> = Codec(encode: E -> Bytes, decode: Bytes -> Option<E>)

  /** Decoding inverts encoding, and no entry encodes to nothing. */
  ghost predicate IsCodec<E(!new)>(codec: Codec<E>) {
    forall e: E :: codec.decode(codec.encode(e)) == Some(e) && codec.encode(e) != []
  }

  /** What JavaScript callers can pass. */
  datatype Input<+E> =
    | Kit(entry: E)
    | Text(text: string)
      /** An object with its own `toXDR`; None where that throws or returns no bytes. */
    | Foreign(xdr: Option<Bytes>)
    | Other

  datatype InputError =
    | NotBase64
    | NotAnEntry
    | NotCanonical
    | ForeignNotEncodable
    | ForeignNotAnEntry
    | UnsupportedInput

  /** White space and line terminators (ECMA-262 sections 12.2 and 12.3). */
  predicate IsWhiteSpace(c: char) {
    || '\t' <= c <= '\r'
    || c == ' '
    || c == '\U{00A0}' || c == '\U{1680}'
    || '\U{2000}' <= c <= '\U{200A}'
    || c == '\U{2028}' || c == '\U{2029}' || c == '\U{202F}' || c == '\U{205F}'
    || c == '\U{3000}' || c == '\U{FEFF}'
  }

  function TrimStart(s: string): string {
    if s != "" && IsWhiteSpace(s[0]) then TrimStart(s[1..]) else s
  }

  function TrimEnd(s: string): string {
    if s != "" && IsWhiteSpace(s[|s| - 1]) then TrimEnd(s[..|s| - 1]) else s
  }

  /** `s.trim()`. */
  function Trim(s: string): string {
    TrimEnd(TrimStart(s))
  }

  function ToAuthEntry<E>(codec: Codec<E>, input: Input<E>): Result<E, InputError> {
    match input
    case Kit(entry) => Ok(entry)
    case Text(text) => DecodeText(codec, Trim(text))
    case Foreign(None) => Err(ForeignNotEncodable)
    case Foreign(Some(bytes)) =>
      (match codec.decode(bytes)
       case None => Err(ForeignNotAnEntry)
       case Some(entry) => Ok(entry))
    case Other => Err(UnsupportedInput)
  }

  function DecodeText<E>(codec: Codec<E>, encoded: string): Result<E, InputError> {
    if encoded == "" || !MatchesPattern(encoded) then Err(NotBase64)
    else
      match codec.decode(Decode(encoded))
      case None => Err(NotAnEntry)
      case Some(entry) =>
        if Encode(codec.encode(entry)) != encoded then Err(NotCanonical) else Ok(entry)
  }

  /** The canonical text of an entry, `entry.toXDR("base64")`. */
  function ToText<E>(codec: Codec<E>, entry: E): string {
    Encode(codec.encode(entry))
  }

  lemma EncodeNotEmpty(b: Bytes)
    requires b != []
    ensures Encode(b) != ""
  {
    assert |Sextets(b)| > 0;
  }

  /**
   * A string is accepted as an entry exactly when its trimmed form is that
   * entry's canonical padded base64.
   */
  lemma AcceptsExactlyCanonicalText<E(!new)>(codec: Codec<E>, text: string, entry: E)
    requires IsCodec(codec)
    ensures ToAuthEntry(codec, Text(text)) == Ok(entry) <==> Trim(text) == ToText(codec, entry)
  {
    var encoded := Trim(text);
    if encoded == ToText(codec, entry) {
      var bytes := codec.encode(entry);
      EncodeNotEmpty(bytes);
      EncodeMatches(bytes);
      DecodeEncode(bytes);
    }
  }

  /** No text stands for two entries, and no entry has two trimmed texts. */
  lemma TextsAndEntriesCorrespond<E(!new)>(codec: Codec<E>, a: string, b: string)
    requires IsCodec(codec)
    requires ToAuthEntry(codec, Text(a)).Ok? && ToAuthEntry(codec, Text(b)).Ok?
    ensures ToAuthEntry(codec, Text(a)) == ToAuthEntry(codec, Text(b)) <==> Trim(a) == Trim(b)
  {
    AcceptsExactlyCanonicalText(codec, a, ToAuthEntry(codec, Text(a)).value);
    AcceptsExactlyCanonicalText(codec, b, ToAuthEntry(codec, Text(b)).value);
  }

  /** Padded text with a nonzero unused bit passes the pattern and is still refused. */
  lemma RejectsUnusedBits<E(!new)>(codec: Codec<E>, text: string)
    requires IsCodec(codec)
    requires MatchesPattern(Trim(text))
    requires IsAlphabet(Body(Trim(text))) && UnusedBits(Parse(Body(Trim(text)))) != 0
    ensures ToAuthEntry(codec, Text(text)).Err?
  {
    var encoded := Trim(text);
    ReencodesIffClean(encoded);
    if ToAuthEntry(codec, Text(text)).Ok? {
      var entry := ToAuthEntry(codec, Text(text)).value;
      DecodeEncode(codec.encode(entry));
      assert false;
    }
  }

  /** Text that is refused names a reason that is true of it. */
  lemma TextRefusalIsTrue<E>(codec: Codec<E>, text: string)
    requires ToAuthEntry(codec, Text(text)).Err?
    ensures match ToAuthEntry(codec, Text(text)).error
            case NotBase64 => Trim(text) == "" || !MatchesPattern(Trim(text))
            case NotAnEntry => codec.decode(Decode(Trim(text))).None?
            case NotCanonical =>
              && codec.decode(Decode(Trim(text))).Some?
              && ToText(codec, codec.decode(Decode(Trim(text))).value) != Trim(text)
            case _ => false
  {
  }

  /**
   * An object of another SDK is accepted exactly if it encodes itself to bytes of an
   * entry, as that entry. Unlike text, the bytes need not be its canonical encoding.
   */
  lemma AcceptsForeignIff<E(!new)>(codec: Codec<E>, xdr: Option<Bytes>, entry: E)
    requires IsCodec(codec)
    ensures ToAuthEntry(codec, Foreign(xdr)) == Ok(entry) <==> xdr.Some? && codec.decode(xdr.value) == Some(entry)
    ensures xdr == Some(codec.encode(entry)) ==> ToAuthEntry(codec, Foreign(xdr)) == Ok(entry)
  {
  }

  // ------------------------------------------------------------- whitespace

  predicate IsBlank(s: string) {
    forall i :: 0 <= i < |s| ==> IsWhiteSpace(s[i])
  }

  /** Text that neither begins nor ends with white space. */
  predicate IsTrimmed(s: string) {
    s == "" || (!IsWhiteSpace(s[0]) && !IsWhiteSpace(s[|s| - 1]))
  }

  lemma {:induction false} TrimStartOf(blank: string, s: string)
    requires IsBlank(blank) && (s == "" || !IsWhiteSpace(s[0]))
    ensures TrimStart(blank + s) == s
  {
    if blank == "" {
      assert blank + s == s;
    } else {
      assert (blank + s)[1..] == blank[1..] + s;
      TrimStartOf(blank[1..], s);
    }
  }

  lemma {:induction false} TrimEndOf(s: string, blank: string)
    requires IsBlank(blank) && (s == "" || !IsWhiteSpace(s[|s| - 1]))
    ensures TrimEnd(s + blank) == s
  {
    if blank == "" {
      assert s + blank == s;
    } else {
      var n := |blank| - 1;
      assert (s + blank)[..|s| + n] == s + blank[..n];
      TrimEndOf(s, blank[..n]);
    }
  }

  lemma EncodeIsTrimmed(b: Bytes)
    ensures IsTrimmed(Encode(b))
  {
    ParsePrint(Sextets(b));
    var s := Encode(b);
    if s != "" {
      assert s[0] == Print(Sextets(b))[0];
    }
  }

  /** Surrounding white space does not matter: canonical text is always accepted. */
  lemma AcceptsSurroundedText<E(!new)>(codec: Codec<E>, before: string, entry: E, after: string)
    requires IsCodec(codec) && IsBlank(before) && IsBlank(after)
    ensures ToAuthEntry(codec, Text(before + ToText(codec, entry) + after)) == Ok(entry)
  {
    var s := ToText(codec, entry);
    EncodeIsTrimmed(codec.encode(entry));
    EncodeNotEmpty(codec.encode(entry));
    assert before + s + after == before + (s + after);
    TrimStartOf(before, s + after);
    TrimEndOf(s, after);
    AcceptsExactlyCanonicalText(codec, before + s + after, entry);
  }
}
