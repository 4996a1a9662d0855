/**
 * The XDR encodings byte for byte (RFC 4506): alignment, padding, and the layout
 * of the bytes that are hashed.
 */
module XdrLayout {
  import opened ByteStrings
  import opened ScVals
  import opened HostOrder
  import opened AuthPayloads
  import opened CanonicalPayloads
  import opened AuthDigests

  // -------------------------------------------------------------- alignment

  lemma Padding(n: nat)
    ensures (n + (4 - n % 4) % 4) % 4 == 0
    ensures n <= n + (4 - n % 4) % 4 < n + 4
  {
  }

  /** The length comes first, big-endian; zeros fill up to a multiple of four. */
  lemma OpaqueLayout(b: Bytes)
    requires |b| < U32_LIMIT
    ensures
      var x := XdrOpaque(b);
      && |x| % 4 == 0 && |b| + 4 <= |x| < |b| + 8
      && ValueOf(x[..4]) == |b|
      && x[4..4 + |b|] == b
      && forall i :: 4 + |b| <= i < |x| ==> x[i] == 0
  {
    Padding(|b|);
    OpaqueParts(XdrU32(|b|), b, Zeros((4 - |b| % 4) % 4));
    assert Power(256, 4) == U32_LIMIT;
    ValueOfFixed(|b|, 4);
  }

  lemma OpaqueParts(length: Bytes, b: Bytes, zeros: Bytes)
    requires |length| == 4 && forall i :: 0 <= i < |zeros| ==> zeros[i] == 0
    ensures
      var x := length + (b + zeros);
      && |x| == 4 + (|b| + |zeros|)
      && x[..4] == length && x[4..4 + |b|] == b
      && forall i :: 4 + |b| <= i < |x| ==> x[i] == 0
  {
  }

  lemma AlignedSum(a: Bytes, b: Bytes)
    requires |a| % 4 == 0 && |b| % 4 == 0
    ensures |a + b| % 4 == 0
  {
  }

  lemma WidthsAreAligned(kind: nat)
    ensures ScalarWidth(kind) % 4 == 0 && AddressWidth(kind) % 4 == 0
  {
  }

  /** Every encoding is a whole number of four-byte units. */
  lemma {:induction false} XdrIsAligned(v: ScVal)
    requires IsEncodable(v)
    ensures |Xdr(v)| % 4 == 0
    decreases v, 1
  {
    ArmIsAligned(v);
    AlignedSum(XdrU32(Discriminant(v)), XdrArm(v));
  }

  lemma {:induction false} ArmIsAligned(v: ScVal)
    requires IsEncodable(v)
    ensures |XdrArm(v)| % 4 == 0
    decreases v, 0
  {
    match v
    case ScvVoid =>
    case ScvU32(_) =>
    case ScvScalar(kind, _) => WidthsAreAligned(kind);
    case ScvBytes(b) => OpaqueLayout(b);
    case ScvString(b) => OpaqueLayout(b);
    case ScvSymbol(b) => OpaqueLayout(b);
    case ScvVec(items) => ItemsAreAligned(items); CountIsAligned(|items|, XdrItems(items));
    case ScvMap(entries) => EntriesAreAligned(entries); CountIsAligned(|entries|, XdrEntries(entries));
    case ScvAddress(a) => WidthsAreAligned(a.kind); AlignedSum(XdrU32(a.kind), a.body);
  }

  lemma CountIsAligned(n: nat, b: Bytes)
    requires |b| % 4 == 0
    ensures |XdrU32(1) + (XdrU32(n) + b)| % 4 == 0
  {
  }

  lemma {:induction false} ItemsAreAligned(items: seq<ScVal>)
    requires forall i :: 0 <= i < |items| ==> IsEncodable(items[i])
    ensures |XdrItems(items)| % 4 == 0
    decreases items
  {
    if items != [] {
      XdrIsAligned(items[0]);
      ItemsAreAligned(items[1..]);
      AlignedSum(Xdr(items[0]), XdrItems(items[1..]));
    }
  }

  lemma {:induction false} EntriesAreAligned(entries: seq<ScMapEntry>)
    requires forall i :: 0 <= i < |entries| ==> IsEncodable(entries[i].key) && IsEncodable(entries[i].val)
    ensures |XdrEntries(entries)| % 4 == 0
    decreases entries
  {
    if entries != [] {
      EntryIsAligned(entries[0]);
      EntriesAreAligned(entries[1..]);
      AlignedSum(XdrEntry(entries[0]), XdrEntries(entries[1..]));
    }
  }

  lemma {:induction false} EntryIsAligned(entry: ScMapEntry)
    requires IsEncodable(entry.key) && IsEncodable(entry.val)
    ensures |XdrEntry(entry)| % 4 == 0
    decreases entry
  {
    XdrIsAligned(entry.key);
    XdrIsAligned(entry.val);
    AlignedSum(Xdr(entry.key), Xdr(entry.val));
  }

  // ------------------------------------------------- the bytes of a preimage

  /** Type 3 and the number, for each rule id. */
  function RuleIdBytes(ids: seq<nat>): Bytes {
    if ids == [] then [] else ([0, 0, 0, 3] + XdrU32(ids[0])) + RuleIdBytes(ids[1..])
  }

  /** A symbol of `n` characters, with its padding. */
  function SymbolPart(n: byte, name: Bytes, padding: nat): Bytes {
    [0, 0, 0, 0x0f] + ([0, 0, 0, n] + (name + Zeros(padding)))
  }

  /** The parts of a map of three entries. */
  function MapPart(first: Bytes, second: Bytes, third: Bytes): Bytes {
    [0, 0, 0, 0x11] + ([0, 0, 0, 1] + ([0, 0, 0, 3] + (first + (second + third))))
  }

  function AddressPart(a: ScAddress): Bytes {
    [0, 0, 0, 0x12] + (XdrU32(a.kind) + a.body)
  }

  function VectorPart(ids: seq<nat>): Bytes {
    [0, 0, 0, 0x10] + ([0, 0, 0, 1] + (XdrU32(|ids|) + RuleIdBytes(ids)))
  }

  /** 32 bytes. */
  function BytesPart(b: Bytes): Bytes {
    [0, 0, 0, 0x0d] + ([0, 0, 0, 0x20] + b)
  }

  lemma FixedSmall(n: nat, width: nat)
    requires n < 256 && width > 0
    ensures Fixed(n, width) == Zeros(width - 1) + [n]
  {
    if width > 1 {
      FixedZero(width - 1);
    } else {
      assert Fixed(n / 256, 0) == [];
    }
  }

  lemma {:induction false} FixedZero(width: nat)
    ensures Fixed(0, width) == Zeros(width)
  {
    if width > 0 {
      FixedZero(width - 1);
    }
  }

  lemma SmallU32(n: nat)
    requires n < 256
    ensures XdrU32(n) == [0, 0, 0, n]
  {
    FixedSmall(n, 4);
  }

  lemma SymbolBytes(name: Bytes)
    requires |name| < 256
    ensures Xdr(ScvSymbol(name)) == SymbolPart(|name|, name, (4 - |name| % 4) % 4)
  {
    SmallU32(15);
    SmallU32(|name|);
  }

  lemma {:induction false} ItemBytes(ids: seq<nat>)
    ensures XdrItems(WriteRuleIds(ids)) == RuleIdBytes(ids)
  {
    if ids != [] {
      ItemBytes(ids[1..]);
      SmallU32(3);
      assert WriteRuleIds(ids)[0] == ScvU32(ids[0]) && WriteRuleIds(ids)[1..] == WriteRuleIds(ids[1..]);
      assert Xdr(ScvU32(ids[0])) == [0, 0, 0, 3] + XdrU32(ids[0]);
    }
  }

  lemma VectorBytes(ids: seq<nat>)
    ensures Xdr(ScvVec(WriteRuleIds(ids))) == VectorPart(ids)
  {
    SmallU32(16);
    SmallU32(1);
    ItemBytes(ids);
  }

  lemma AddressBytes(a: ScAddress)
    ensures Xdr(ScvAddress(a)) == AddressPart(a)
  {
    SmallU32(18);
  }

  lemma BytesBytes(b: Bytes)
    requires |b| == 32
    ensures Xdr(ScvBytes(b)) == BytesPart(b)
  {
    SmallU32(13);
    SmallU32(32);
    assert b + Zeros(0) == b;
  }

  lemma EntriesBytes(a: ScMapEntry, b: ScMapEntry, c: ScMapEntry)
    ensures XdrEntries([a, b, c]) == XdrEntry(a) + (XdrEntry(b) + XdrEntry(c))
  {
    assert [a, b, c][1..] == [b, c] && [b, c][1..] == [c] && [c][1..] == [];
    assert XdrEntries([c]) == XdrEntry(c) + XdrEntries([]) == XdrEntry(c);
    assert XdrEntries([b, c]) == XdrEntry(b) + XdrEntry(c);
  }

  lemma ThreeEntries(entries: seq<ScMapEntry>)
    requires |entries| == 3
    ensures Xdr(ScvMap(entries))
         == MapPart(XdrEntry(entries[0]), XdrEntry(entries[1]), XdrEntry(entries[2]))
  {
    SmallU32(17);
    SmallU32(1);
    SmallU32(3);
    EntriesBytes(entries[0], entries[1], entries[2]);
    assert entries == [entries[0], entries[1], entries[2]];
  }

  lemma FieldBytes(name: Bytes, n: byte, padding: nat, x: ScVal)
    requires |name| == n && padding < 4 && (n + padding) % 4 == 0
    ensures XdrEntry(ScMapEntry(ScvSymbol(name), x)) == SymbolPart(n, name, padding) + Xdr(x)
  {
    SymbolBytes(name);
  }

  lemma PreimageParts(p: Bytes, q: Bytes, r: Bytes, input: DigestInput)
    requires |p| == 7 && |q| == 16 && |r| == 17 && |input.signaturePayload| == 32
    ensures Xdr(ScvMap([
                         ScMapEntry(ScvSymbol(p), ScvAddress(input.account)),
                         ScMapEntry(ScvSymbol(q), ScvVec(WriteRuleIds(input.ruleIds))),
                         ScMapEntry(ScvSymbol(r), ScvBytes(input.signaturePayload))]))
         == MapPart(
              SymbolPart(7, p, 1) + AddressPart(input.account),
              SymbolPart(16, q, 0) + VectorPart(input.ruleIds),
              SymbolPart(17, r, 3) + BytesPart(input.signaturePayload))
  {
    ThreeEntries([
                   ScMapEntry(ScvSymbol(p), ScvAddress(input.account)),
                   ScMapEntry(ScvSymbol(q), ScvVec(WriteRuleIds(input.ruleIds))),
                   ScMapEntry(ScvSymbol(r), ScvBytes(input.signaturePayload))]);
    FieldBytes(p, 7, 1, ScvAddress(input.account));
    FieldBytes(q, 16, 0, ScvVec(WriteRuleIds(input.ruleIds)));
    FieldBytes(r, 17, 3, ScvBytes(input.signaturePayload));
    AddressBytes(input.account);
    VectorBytes(input.ruleIds);
    BytesBytes(input.signaturePayload);
  }

  /**
   * The bytes hashed under `preimage-v1`, all of them: a map of three entries
   * with the symbols `account`, `context_rule_ids` and `signature_payload`.
   */
  lemma PreimageLayout(input: DigestInput)
    requires IsDigestInput(input)
    ensures Hashed(PreimageV1, input)
         == MapPart(
              SymbolPart(7, Ascii("account"), 1) + AddressPart(input.account),
              SymbolPart(16, Ascii("context_rule_ids"), 0) + VectorPart(input.ruleIds),
              SymbolPart(17, Ascii("signature_payload"), 3) + BytesPart(input.signaturePayload))
  {
    assert |ACCOUNT| == 7 && |RULE_IDS| == 16 && |SIGNATURE_PAYLOAD| == 17;
    PreimageParts(ACCOUNT, RULE_IDS, SIGNATURE_PAYLOAD, input);
  }

  /** Under `legacy-concat`: the payload, and the rule ids as a vector. */
  lemma LegacyLayout(input: DigestInput)
    ensures Hashed(LegacyConcat, input) == input.signaturePayload + VectorPart(input.ruleIds)
  {
    VectorBytes(input.ruleIds);
  }

  // ------------------------------------------------------------ field order

  lemma TagsInHostOrder(p: Bytes, q: Bytes)
    requires TagBefore(p, q) && |p| < U32_LIMIT && |q| < U32_LIMIT
    ensures HostBefore(ScvSymbol(p), ScvSymbol(q))
  {
    CompareTags(p, q);
    CompareIsHostOrder(ScvSymbol(p), ScvSymbol(q));
  }

  lemma ThreeTagsInHostOrder(p: Bytes, q: Bytes, r: Bytes, x: ScVal, y: ScVal, z: ScVal)
    requires TagBefore(p, q) && TagBefore(q, r) && |p| < U32_LIMIT && |q| < U32_LIMIT && |r| < U32_LIMIT
    ensures InHostOrder([ScMapEntry(ScvSymbol(p), x), ScMapEntry(ScvSymbol(q), y), ScMapEntry(ScvSymbol(r), z)])
    ensures InHostOrder([ScMapEntry(ScvSymbol(q), y), ScMapEntry(ScvSymbol(r), z)])
  {
    TagsInHostOrder(p, q);
    TagsInHostOrder(q, r);
    TagsInHostOrder(p, r);
  }

  predicate IsAsciiText(s: string) {
    forall i :: 0 <= i < |s| ==> s[i] as int < 0x80
  }

  lemma AsciiTags(s: string, t: string)
    requires s != "" && t != "" && s[0] < t[0] && IsAsciiText(s) && IsAsciiText(t)
    ensures TagBefore(Ascii(s), Ascii(t))
  {
  }

  lemma FieldTags()
    ensures TagBefore(ACCOUNT, RULE_IDS) && TagBefore(RULE_IDS, SIGNATURE_PAYLOAD) && TagBefore(RULE_IDS, SIGNERS)
    ensures |ACCOUNT| == 7 && |RULE_IDS| == 16 && |SIGNATURE_PAYLOAD| == 17 && |SIGNERS| == 7
  {
    AsciiTags("account", "context_rule_ids");
    AsciiTags("context_rule_ids", "signature_payload");
    AsciiTags("context_rule_ids", "signers");
  }

  /** The fields of the preimage and of the payload are in the order the host demands. */
  lemma FieldsAreInHostOrder(input: DigestInput, ids: seq<nat>, sorted: seq<ScMapEntry>)
    ensures InHostOrder(Preimage(input).entries)
    ensures InHostOrder(PayloadValue(ids, sorted).entries)
  {
    FieldTags();
    ThreeTagsInHostOrder(
      ACCOUNT, RULE_IDS, SIGNATURE_PAYLOAD, ScvAddress(input.account), ScvVec(WriteRuleIds(input.ruleIds)),
      ScvBytes(input.signaturePayload));
    ThreeTagsInHostOrder(ACCOUNT, RULE_IDS, SIGNERS, ScvVoid, ScvVec(WriteRuleIds(ids)), ScvMap(sorted));
  }
}
