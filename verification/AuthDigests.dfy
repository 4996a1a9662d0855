/**
 * The digest every signer of an entry signs, under both schemes, as bytes.
 *
 *   legacy-concat:  hash(signature_payload ++ xdr(vec of rule ids))
 *   preimage-v1:    hash(xdr(map { account, context_rule_ids, signature_payload }))
 */
module AuthDigests {
  import opened Wrappers
  import opened ByteStrings
  import opened ScVals
  import opened AuthPayloads
  import opened CanonicalPayloads

  datatype Scheme = LegacyConcat | PreimageV1

  /** `isAuthDigestScheme`. */
  function ParseScheme(name: string): Option<Scheme> {
    if name == "legacy-concat" then Some(LegacyConcat)
    else if name == "preimage-v1" then Some(PreimageV1)
    else None
  }

  const ACCOUNT: Bytes := Ascii("account")
  const SIGNATURE_PAYLOAD: Bytes := Ascii("signature_payload")

  /** What one digest commits to. */
  datatype DigestInput = DigestInput(account: ScAddress, signaturePayload: Bytes, ruleIds: seq<nat>)

  predicate IsDigestInput(input: DigestInput) {
    && IsAddress(input.account)
    && |input.signaturePayload| == 32
    && |input.ruleIds| < U32_LIMIT
    && forall i :: 0 <= i < |input.ruleIds| ==> input.ruleIds[i] < U32_LIMIT
  }

  /** The `AuthDigestPreimage` struct. */
  function Preimage(input: DigestInput): ScVal {
    ScvMap([
      ScMapEntry(ScvSymbol(ACCOUNT), ScvAddress(input.account)),
      ScMapEntry(ScvSymbol(RULE_IDS), ScvVec(WriteRuleIds(input.ruleIds))),
      ScMapEntry(ScvSymbol(SIGNATURE_PAYLOAD), ScvBytes(input.signaturePayload))
    ])
  }

  /** The bytes that are hashed. */
  function Hashed(scheme: Scheme, input: DigestInput): Bytes {
    match scheme
    case LegacyConcat => input.signaturePayload + Xdr(ScvVec(WriteRuleIds(input.ruleIds)))
    case PreimageV1 => Xdr(Preimage(input))
  }

  /** An explicit collision of the hash function. */
  ghost predicate Collides(hash: Bytes -> Bytes, x: Bytes, y: Bytes) {
    x != y && hash(x) == hash(y)
  }

  lemma RuleIdsEncodable(ids: seq<nat>)
    requires |ids| < U32_LIMIT && forall i :: 0 <= i < |ids| ==> ids[i] < U32_LIMIT
    ensures IsEncodable(ScvVec(WriteRuleIds(ids)))
  {
    var items := WriteRuleIds(ids);
    assert forall i :: 0 <= i < |items| ==> IsEncodable(items[i]);
  }

  lemma PreimageEncodable(input: DigestInput)
    requires IsDigestInput(input)
    ensures IsEncodable(Preimage(input))
  {
    RuleIdsEncodable(input.ruleIds);
    assert |ACCOUNT| == 7 && |RULE_IDS| == 16 && |SIGNATURE_PAYLOAD| == 17;
  }

  lemma LegacyBytesInjective(a: DigestInput, b: DigestInput)
    requires IsDigestInput(a) && IsDigestInput(b)
    requires Hashed(LegacyConcat, a) == Hashed(LegacyConcat, b)
    ensures a.signaturePayload == b.signaturePayload && a.ruleIds == b.ruleIds
  {
    var p, q := ScvVec(WriteRuleIds(a.ruleIds)), ScvVec(WriteRuleIds(b.ruleIds));
    AppendSplit(a.signaturePayload, Xdr(p), b.signaturePayload, Xdr(q));
    RuleIdsEncodable(a.ruleIds);
    RuleIdsEncodable(b.ruleIds);
    XdrInjective(p, q);
    WriteRuleIdsInjective(a.ruleIds, b.ruleIds);
  }

  lemma PreimageBytesInjective(a: DigestInput, b: DigestInput)
    requires IsDigestInput(a) && IsDigestInput(b)
    requires Hashed(PreimageV1, a) == Hashed(PreimageV1, b)
    ensures a == b
  {
    PreimageEncodable(a);
    PreimageEncodable(b);
    XdrInjective(Preimage(a), Preimage(b));
    var x, y := Preimage(a).entries, Preimage(b).entries;
    assert x[0].val == y[0].val && x[1].val == y[1].val && x[2].val == y[2].val;
    WriteRuleIdsInjective(a.ruleIds, b.ruleIds);
  }

  // ------------------------------------------------------ domain separation

  lemma RegroupThree(a: Bytes, b: Bytes, c: Bytes, d: Bytes)
    ensures a + (b + (c + d)) == (a + (b + c)) + d
  {
  }

  lemma RegroupFour(p: Bytes, q: Bytes, kind: Bytes, body: Bytes, tail: Bytes)
    ensures p + ((q + (kind + body)) + tail) == (p + q) + (kind + (body + tail))
  {
  }

  /** The bytes of a map before its first entry: discriminant, presence flag, length. */
  lemma MapHeader(v: ScVal) returns (header: Bytes)
    requires v.ScvMap? && v.entries != []
    ensures |header| == 12
    ensures Xdr(v) == header + (XdrEntry(v.entries[0]) + XdrEntries(v.entries[1..]))
  {
    var kind, flag, length := XdrU32(Discriminant(v)), XdrU32(1), XdrU32(|v.entries|);
    var entries := XdrEntries(v.entries);
    header := kind + (flag + length);
    assert Xdr(v) == kind + (flag + (length + entries));
    RegroupThree(kind, flag, length, entries);
  }

  lemma AccountKeyLength()
    ensures |Xdr(ScvSymbol(ACCOUNT))| == 16
  {
    assert |ACCOUNT| == 7;
    assert |XdrOpaque(ACCOUNT)| == 12;
  }

  lemma AccountEntryHeader(account: ScAddress) returns (header: Bytes)
    ensures |header| == 20
    ensures XdrEntry(ScMapEntry(ScvSymbol(ACCOUNT), ScvAddress(account)))
         == header + (XdrU32(account.kind) + account.body)
  {
    var key, kind := Xdr(ScvSymbol(ACCOUNT)), XdrU32(Discriminant(ScvAddress(account)));
    AccountKeyLength();
    header := key + kind;
    assert Xdr(ScvAddress(account)) == kind + XdrAddress(account);
    Regroup(key, kind, XdrAddress(account));
  }

  /** The bytes of a v1 preimage up to the kind of its account address. */
  lemma PreimagePrefix(input: DigestInput) returns (prefix: Bytes, rest: Bytes)
    ensures |prefix| == 32
    ensures Hashed(PreimageV1, input) == prefix + (XdrU32(input.account.kind) + rest)
  {
    var entries := Preimage(input).entries;
    var p := MapHeader(Preimage(input));
    var q := AccountEntryHeader(input.account);
    var tail := XdrEntries(entries[1..]);
    prefix, rest := p + q, input.account.body + tail;
    RegroupFour(p, q, XdrU32(input.account.kind), input.account.body, tail);
  }

  /** No bytes are hashed under both schemes, so a signature cannot move between them. */
  lemma SchemesAreSeparated(a: DigestInput, b: DigestInput)
    requires IsDigestInput(a) && IsDigestInput(b)
    ensures Hashed(LegacyConcat, a) != Hashed(PreimageV1, b)
  {
    var ids := ScvVec(WriteRuleIds(a.ruleIds));
    var prefix, rest := PreimagePrefix(b);
    if Hashed(LegacyConcat, a) == Hashed(PreimageV1, b) {
      AppendSplit(a.signaturePayload, Xdr(ids), prefix, XdrU32(b.account.kind) + rest);
      XdrU32Split(16, XdrArm(ids), b.account.kind, rest);
      assert false;
    }
  }

  /** Equal digests come from the same scheme and the same signature payload and
      rule ids, and under preimage-v1 the same account, unless they exhibit a
      collision of the hash. */
  lemma DigestBinds(hash: Bytes -> Bytes, s: Scheme, a: DigestInput, t: Scheme, b: DigestInput)
    requires IsDigestInput(a) && IsDigestInput(b)
    requires hash(Hashed(s, a)) == hash(Hashed(t, b))
    ensures
      || Collides(hash, Hashed(s, a), Hashed(t, b))
      || (s == t && a.signaturePayload == b.signaturePayload && a.ruleIds == b.ruleIds
          && (s == PreimageV1 ==> a.account == b.account))
  {
    if Hashed(s, a) == Hashed(t, b) {
      match (s, t)
      case (LegacyConcat, LegacyConcat) => LegacyBytesInjective(a, b);
      case (PreimageV1, PreimageV1) => PreimageBytesInjective(a, b);
      case (LegacyConcat, PreimageV1) => SchemesAreSeparated(a, b);
      case (PreimageV1, LegacyConcat) => SchemesAreSeparated(b, a);
    }
  }

  /** legacy-concat does not look at the account: that is what preimage-v1 adds. */
  lemma LegacyIgnoresAccount(input: DigestInput, other: ScAddress)
    ensures Hashed(LegacyConcat, input) == Hashed(LegacyConcat, input.(account := other))
    ensures IsDigestInput(input) && IsAddress(other) && other != input.account ==>
              Hashed(PreimageV1, input) != Hashed(PreimageV1, input.(account := other))
  {
    var changed := input.(account := other);
    if IsDigestInput(input) && IsAddress(other) && Hashed(PreimageV1, input) == Hashed(PreimageV1, changed) {
      PreimageBytesInjective(input, changed);
    }
  }
}
