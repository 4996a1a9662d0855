/** `readAuthPayload` on any signature, forged ones included: what it accepts, and what it reads. */
module PayloadReading {
  import opened Wrappers
  import opened OrderedMaps
  import opened ScVals
  import opened AuthPayloads

  // ------------------------------------------------------ what can be read

  /** A variant name with what belongs to it; more items do not matter. */
  predicate IsSignerKey(codec: AddressCodec, v: ScVal) {
    && v.ScvVec?
    && |v.items| >= 2 && v.items[1].ScvAddress? && codec.format(v.items[1].address).Some?
    && (|| v.items[0] == ScvSymbol(DELEGATED)
        || (v.items[0] == ScvSymbol(EXTERNAL) && |v.items| >= 3 && v.items[2].ScvBytes?))
  }

  predicate AreRuleIds(items: seq<ScVal>) {
    forall i :: 0 <= i < |items| ==> items[i].ScvU32?
  }

  predicate AreSignatures(codec: AddressCodec, entries: seq<ScMapEntry>) {
    forall i :: 0 <= i < |entries| ==> IsSignerKey(codec, entries[i].key) && entries[i].val.ScvBytes?
  }

  /** Fields with other names are ignored. */
  predicate IsField(codec: AddressCodec, e: ScMapEntry) {
    && (e.key == ScvSymbol(RULE_IDS) ==> e.val.ScvVec? && AreRuleIds(e.val.items))
    && (e.key == ScvSymbol(SIGNERS) ==> e.val.ScvMap? && AreSignatures(codec, e.val.entries))
  }

  predicate AreFields(codec: AddressCodec, entries: seq<ScMapEntry>) {
    forall i :: 0 <= i < |entries| ==> IsField(codec, entries[i])
  }

  lemma ParsesIff(codec: AddressCodec, v: ScVal)
    ensures ParseSigner(codec, v).Ok? <==> IsSignerKey(codec, v)
  {
    assert |DELEGATED| == 9 && |EXTERNAL| == 8;
  }

  lemma {:induction false} ReadsRuleIdsIff(items: seq<ScVal>)
    ensures ReadRuleIds(items).Ok? <==> AreRuleIds(items)
  {
    if items != [] {
      ReadsRuleIdsIff(items[1..]);
      assert AreRuleIds(items) <==> items[0].ScvU32? && AreRuleIds(items[1..]) by {
        assert forall i :: 1 <= i < |items| ==> items[i] == items[1..][i - 1];
      }
    }
  }

  lemma {:induction false} ReadsSignersIff(codec: AddressCodec, entries: seq<ScMapEntry>, m: SignatureMap)
    ensures ReadSigners(codec, entries, m).Ok? <==> AreSignatures(codec, entries)
    decreases |entries|
  {
    if entries != [] {
      ParsesIff(codec, entries[0].key);
      assert forall i :: 1 <= i < |entries| ==> entries[i] == entries[1..][i - 1];
      if IsSignerKey(codec, entries[0].key) && entries[0].val.ScvBytes? {
        var owner := SignerObject(-1 - |m|, ParseSigner(codec, entries[0].key).value);
        ReadsSignersIff(codec, entries[1..], m + [Entry(owner, entries[0].val.bytes)]);
      }
    }
  }

  lemma ReadsFieldIff(codec: AddressCodec, e: ScMapEntry, payload: AuthPayload)
    ensures ReadField(codec, e, payload).Ok? <==> IsField(codec, e)
  {
    assert |RULE_IDS| == 16 && |SIGNERS| == 7;
    if e.key == ScvSymbol(RULE_IDS) && e.val.ScvVec? {
      ReadsRuleIdsIff(e.val.items);
    }
    if e.key == ScvSymbol(SIGNERS) && e.val.ScvMap? {
      ReadsSignersIff(codec, e.val.entries, payload.signers);
    }
  }

  lemma {:induction false} ReadsFieldsIff(codec: AddressCodec, entries: seq<ScMapEntry>, payload: AuthPayload)
    ensures ReadFields(codec, entries, payload).Ok? <==> AreFields(codec, entries)
    decreases |entries|
  {
    if entries != [] {
      ReadsFieldIff(codec, entries[0], payload);
      assert forall i :: 1 <= i < |entries| ==> entries[i] == entries[1..][i - 1];
      if IsField(codec, entries[0]) {
        ReadsFieldsIff(codec, entries[1..], ReadField(codec, entries[0], payload).value);
      }
    }
  }

  /** A signature is read as a payload exactly when it is void or a map whose fields have their types. */
  lemma ReadsIff(codec: AddressCodec, signature: ScVal)
    ensures Read(codec, signature).Ok? <==>
              signature.ScvVoid? || (signature.ScvMap? && AreFields(codec, signature.entries))
  {
    if signature.ScvMap? {
      ReadsFieldsIff(codec, signature.entries, EMPTY);
    }
  }

  // --------------------------------------------------- what is read from it

  function RuleIdsOf(items: seq<ScVal>): (ids: seq<nat>)
    requires AreRuleIds(items)
    ensures |ids| == |items| && forall i :: 0 <= i < |ids| ==> items[i] == ScvU32(ids[i])
  {
    seq(|items|, i requires 0 <= i < |items| => items[i].value)
  }

  /** The rule ids of the last field of that name, or else those given. */
  function LastRuleIds(codec: AddressCodec, entries: seq<ScMapEntry>, otherwise: seq<nat>): seq<nat>
    requires AreFields(codec, entries)
  {
    if entries == [] then otherwise
    else
      var n := |entries| - 1;
      if entries[n].key == ScvSymbol(RULE_IDS) then RuleIdsOf(entries[n].val.items)
      else LastRuleIds(codec, entries[..n], otherwise)
  }

  /** The signer entries of every field of that name. */
  function SignerEntries(codec: AddressCodec, entries: seq<ScMapEntry>): seq<ScMapEntry>
    requires AreFields(codec, entries)
  {
    if entries == [] then []
    else
      (if entries[0].key == ScvSymbol(SIGNERS) then entries[0].val.entries else [])
      + SignerEntries(codec, entries[1..])
  }

  /** The map lists these entries, in order, each signer as it is parsed. */
  ghost predicate Lists(codec: AddressCodec, m: SignatureMap, entries: seq<ScMapEntry>) {
    && |m| == |entries|
    && forall i :: 0 <= i < |m| ==>
                     && ParseSigner(codec, entries[i].key) == Ok(m[i].key.signer)
                     && entries[i].val == ScvBytes(m[i].value)
  }

  lemma {:induction false} RuleIdsAreRead(items: seq<ScVal>)
    requires AreRuleIds(items)
    ensures ReadRuleIds(items) == Ok(RuleIdsOf(items))
  {
    if items != [] {
      RuleIdsAreRead(items[1..]);
      assert RuleIdsOf(items) == [items[0].value] + RuleIdsOf(items[1..]);
    }
  }

  lemma {:induction false} SignersAreRead(
    codec: AddressCodec, entries: seq<ScMapEntry>, m: SignatureMap, before: seq<ScMapEntry>)
    requires ReadSigners(codec, entries, m).Ok? && Lists(codec, m, before)
    ensures Lists(codec, ReadSigners(codec, entries, m).value, before + entries)
    decreases |entries|
  {
    if entries == [] {
      assert before + entries == before;
    } else {
      var owner := SignerObject(-1 - |m|, ParseSigner(codec, entries[0].key).value);
      var next := m + [Entry(owner, entries[0].val.bytes)];
      assert Lists(codec, next, before + [entries[0]]);
      SignersAreRead(codec, entries[1..], next, before + [entries[0]]);
      assert before + [entries[0]] + entries[1..] == before + entries;
    }
  }

  lemma {:induction false} LastRuleIdsCons(
    codec: AddressCodec, first: ScMapEntry, rest: seq<ScMapEntry>, otherwise: seq<nat>)
    requires AreFields(codec, [first] + rest) && IsField(codec, first) && AreFields(codec, rest)
    ensures LastRuleIds(codec, [first] + rest, otherwise)
         == LastRuleIds(
              codec, rest,
              if first.key == ScvSymbol(RULE_IDS) then RuleIdsOf(first.val.items) else otherwise)
    decreases |rest|
  {
    var n := |rest| - 1;
    if rest == [] {
      assert [first] + rest == [first] && [first][..0] == [];
    } else {
      assert ([first] + rest)[..n + 1] == [first] + rest[..n];
      if rest[n].key != ScvSymbol(RULE_IDS) {
        assert AreFields(codec, ([first] + rest)[..n + 1]);
        LastRuleIdsCons(codec, first, rest[..n], otherwise);
      }
    }
  }

  lemma {:induction false} FieldsAreRead(
    codec: AddressCodec, entries: seq<ScMapEntry>, payload: AuthPayload, before: seq<ScMapEntry>)
    requires AreFields(codec, entries) && Lists(codec, payload.signers, before)
    requires ReadFields(codec, entries, payload).Ok?
    ensures
      var read := ReadFields(codec, entries, payload).value;
      && read.ruleIds == LastRuleIds(codec, entries, payload.ruleIds)
      && Lists(codec, read.signers, before + SignerEntries(codec, entries))
    decreases |entries|
  {
    if entries == [] {
      assert before + [] == before;
    } else {
      var first, rest := entries[0], entries[1..];
      assert |RULE_IDS| == 16 && |SIGNERS| == 7;
      assert entries == [first] + rest;
      LastRuleIdsCons(codec, first, rest, payload.ruleIds);
      var next := ReadField(codec, first, payload).value;
      var added := if first.key == ScvSymbol(SIGNERS) then first.val.entries else [];
      FieldIsRead(codec, first, payload, before);
      FieldsAreRead(codec, rest, next, before + added);
      assert before + added + SignerEntries(codec, rest) == before + SignerEntries(codec, entries);
    }
  }

  lemma FieldIsRead(codec: AddressCodec, e: ScMapEntry, payload: AuthPayload, before: seq<ScMapEntry>)
    requires IsField(codec, e) && Lists(codec, payload.signers, before) && ReadField(codec, e, payload).Ok?
    ensures
      var read := ReadField(codec, e, payload).value;
      && read.ruleIds == (if e.key == ScvSymbol(RULE_IDS) then RuleIdsOf(e.val.items) else payload.ruleIds)
      && Lists(codec, read.signers, before + if e.key == ScvSymbol(SIGNERS) then e.val.entries else [])
  {
    assert |RULE_IDS| == 16 && |SIGNERS| == 7;
    assert before + [] == before;
    if e.key == ScvSymbol(RULE_IDS) {
      RuleIdsAreRead(e.val.items);
    }
    if e.key == ScvSymbol(SIGNERS) {
      SignersAreRead(codec, e.val.entries, payload.signers, before);
    }
  }

  /**
   * Of a map, the last field with rule ids counts, and the signer entries of all
   * fields of that name, in order, equal signers or not.
   */
  lemma ReadMeaning(codec: AddressCodec, signature: ScVal)
    requires signature.ScvMap? && AreFields(codec, signature.entries)
    ensures Read(codec, signature).Ok?
    ensures
      var payload := Read(codec, signature).value;
      && payload.ruleIds == LastRuleIds(codec, signature.entries, [])
      && Lists(codec, payload.signers, SignerEntries(codec, signature.entries))
  {
    ReadsIff(codec, signature);
    FieldsAreRead(codec, signature.entries, EMPTY, []);
    assert [] + SignerEntries(codec, signature.entries) == SignerEntries(codec, signature.entries);
  }
}
