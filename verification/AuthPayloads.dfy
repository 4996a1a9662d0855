/**
 * The AuthPayload inside an entry's signature: reading it from a Soroban value,
 * upserting signatures, and writing it back in host map order.
 */
module AuthPayloads {
  import opened Wrappers
  import opened ByteStrings
  import opened OrderedMaps
  import opened Signers
  import opened ScVals
  import opened Utf8

  /** Strkey text of addresses: None where the SDK throws. */
  datatype AddressCodec = AddressCodec(parse: string -> Option<ScAddress>, format: ScAddress -> Option<string>)

  /** Parsing and printing are inverse partial functions on well-formed addresses. */
  ghost predicate IsAddressCodec(codec: AddressCodec) {
    && (forall s: string :: codec.parse(s).Some? ==>
          IsAddress(codec.parse(s).value) && codec.format(codec.parse(s).value) == Some(s))
    && (forall a: ScAddress :: codec.format(a).Some? ==> codec.parse(codec.format(a).value) == Some(a))
  }

  /**
   * A JavaScript signer object used as a `Map` key. Keys are compared by
   * identity, which `handle` stands for; parsed objects have negative handles.
   */
  datatype SignerObject = SignerObject(handle: int, signer: Signer)

  type SignatureMap = OrderedMap<SignerObject, Bytes>

  datatype AuthPayload = AuthPayload(ruleIds: seq<nat>, signers: SignatureMap)

  const EMPTY := AuthPayload([], [])

  /** The bytes of an ASCII text. */
  function Ascii(s: string): (b: Bytes)
    ensures |b| == |s|
  {
    seq(|s|, i requires 0 <= i < |s| => s[i] as int % 256)
  }

  const RULE_IDS: Bytes := Ascii("context_rule_ids")
  const SIGNERS: Bytes := Ascii("signers")

  /** The variants of the contract's `Signer` enum. */
  const VARIANTS: seq<string> := ["Delegated", "External"]

  const DELEGATED: Bytes := Ascii(VARIANTS[0])
  const EXTERNAL: Bytes := Ascii(VARIANTS[1])

  datatype PayloadError =
    | NotAPayload
    | RuleIdsNotAVector
    | RuleIdNotU32
    | SignersNotAMap
    | SignatureNotBytes
    | BadSignerKey
    | UnsupportedAddress

  // ------------------------------------------------------------ signer keys

  /** `signerToScVal`: None where the address does not parse. */
  function SignerToScVal(codec: AddressCodec, signer: Signer): Option<ScVal> {
    match signer
    case Delegated(address) =>
      (match codec.parse(address)
       case None => None
       case Some(a) => Some(ScvVec([ScvSymbol(DELEGATED), ScvAddress(a)])))
    case External(verifier, keyData) =>
      (match codec.parse(verifier)
       case None => None
       case Some(a) => Some(ScvVec([ScvSymbol(EXTERNAL), ScvAddress(a), ScvBytes(keyData)])))
  }

  /** `parseSignerScVal`: elements after the ones it reads are ignored. */
  function ParseSigner(codec: AddressCodec, v: ScVal): Result<Signer, PayloadError> {
    if !v.ScvVec? || |v.items| < 2 || !v.items[0].ScvSymbol? then Err(BadSignerKey)
    else if v.items[0].name == DELEGATED then
      if !v.items[1].ScvAddress? then Err(BadSignerKey)
      else
        match codec.format(v.items[1].address)
        case None => Err(UnsupportedAddress)
        case Some(address) => Ok(Delegated(address))
    else if v.items[0].name == EXTERNAL then
      if |v.items| < 3 || !v.items[1].ScvAddress? || !v.items[2].ScvBytes? then Err(BadSignerKey)
      else
        match codec.format(v.items[1].address)
        case None => Err(UnsupportedAddress)
        case Some(verifier) => Ok(External(verifier, v.items[2].bytes))
    else Err(BadSignerKey)
  }

  lemma ParseSignerOfScVal(codec: AddressCodec, signer: Signer)
    requires IsAddressCodec(codec) && SignerToScVal(codec, signer).Some?
    ensures ParseSigner(codec, SignerToScVal(codec, signer).value) == Ok(signer)
  {
    assert |DELEGATED| == 9 && |EXTERNAL| == 8;
  }

  lemma AsciiText(s: string)
    requires forall i :: 0 <= i < |s| ==> s[i] as int < 0x80
    ensures Reencoded(Ascii(s)) == Ascii(s)
  {
    AsciiIsWellFormed(Ascii(s));
    FixedIffWellFormed(Ascii(s));
  }

  lemma {:induction false} DecodedOfAtoms(items: seq<ScVal>)
    requires forall i :: 0 <= i < |items| ==> Decoded(items[i]) == items[i]
    ensures DecodedItems(items) == items
  {
    if items != [] {
      DecodedOfAtoms(items[1..]);
      assert items == [items[0]] + items[1..];
    }
  }

  lemma NamedItemsAreText(name: string, rest: seq<ScVal>)
    requires forall i :: 0 <= i < |name| ==> name[i] as int < 0x80
    requires forall i :: 0 <= i < |rest| ==> rest[i].ScvAddress? || rest[i].ScvBytes?
    ensures HasWellFormedTexts(ScvVec([ScvSymbol(Ascii(name))] + rest))
  {
    AsciiText(name);
    DecodedOfAtoms([ScvSymbol(Ascii(name))] + rest);
  }

  /** The texts in a signer's key are well formed, so the host order tells keys apart. */
  lemma SignerKeyIsText(codec: AddressCodec, signer: Signer)
    requires SignerToScVal(codec, signer).Some?
    ensures HasWellFormedTexts(SignerToScVal(codec, signer).value)
  {
    var items := SignerToScVal(codec, signer).value.items;
    assert items == [items[0]] + items[1..];
    match signer
    case Delegated(_) => NamedItemsAreText(VARIANTS[0], items[1..]);
    case External(_, _) => NamedItemsAreText(VARIANTS[1], items[1..]);
  }

  lemma SignerToScValInjective(codec: AddressCodec, a: Signer, b: Signer)
    requires IsAddressCodec(codec) && SignerToScVal(codec, a).Some?
    requires SignerToScVal(codec, a) == SignerToScVal(codec, b)
    ensures a == b
  {
    ParseSignerOfScVal(codec, a);
    ParseSignerOfScVal(codec, b);
  }

  // ---------------------------------------------------------------- reading

  function ReadRuleIds(items: seq<ScVal>): Result<seq<nat>, PayloadError> {
    if items == [] then Ok([])
    else if !items[0].ScvU32? then Err(RuleIdNotU32)
    else
      var rest :- ReadRuleIds(items[1..]);
      Ok([items[0].value] + rest)
  }

  /** Each parsed signer is a new object, so `Map.set` appends it, equal or not. */
  function ReadSigners(codec: AddressCodec, entries: seq<ScMapEntry>, m: SignatureMap)
    : Result<SignatureMap, PayloadError>
    decreases entries
  {
    if entries == [] then Ok(m)
    else
      var signer :- ParseSigner(codec, entries[0].key);
      if !entries[0].val.ScvBytes? then Err(SignatureNotBytes)
      else
        var owner := SignerObject(-1 - |m|, signer);
        ReadSigners(codec, entries[1..], m + [Entry(owner, entries[0].val.bytes)])
  }

  function ReadFields(codec: AddressCodec, entries: seq<ScMapEntry>, payload: AuthPayload)
    : Result<AuthPayload, PayloadError>
    decreases entries
  {
    if entries == [] then Ok(payload)
    else
      var next :- ReadField(codec, entries[0], payload);
      ReadFields(codec, entries[1..], next)
  }

  function ReadField(codec: AddressCodec, entry: ScMapEntry, payload: AuthPayload)
    : Result<AuthPayload, PayloadError>
  {
    if !entry.key.ScvSymbol? then Ok(payload)
    else if entry.key.name == RULE_IDS then
      if !entry.val.ScvVec? then Err(RuleIdsNotAVector)
      else
        var ids :- ReadRuleIds(entry.val.items);
        Ok(payload.(ruleIds := ids))
    else if entry.key.name == SIGNERS then
      if !entry.val.ScvMap? then Err(SignersNotAMap)
      else
        var m :- ReadSigners(codec, entry.val.entries, payload.signers);
        Ok(payload.(signers := m))
    else Ok(payload)
  }

  /** `readAuthPayload`. */
  function Read(codec: AddressCodec, signature: ScVal): Result<AuthPayload, PayloadError> {
    if signature.ScvVoid? then Ok(EMPTY)
    else if !signature.ScvMap? then Err(NotAPayload)
    else ReadFields(codec, signature.entries, EMPTY)
  }

  // -------------------------------------------------------------- upserting

  function DeleteFirstEqual(m: SignatureMap, signer: Signer): SignatureMap {
    if m == [] then []
    else if SignersEqual(m[0].key.signer, signer) then m[1..]
    else [m[0]] + DeleteFirstEqual(m[1..], signer)
  }

  /** `upsertAuthPayloadSigner` on the signer map. */
  function Upsert(m: SignatureMap, owner: SignerObject, signature: Bytes): SignatureMap {
    Set(DeleteFirstEqual(m, owner.signer), owner, signature)
  }

  /** How many entries carry a signer. */
  function Count(m: SignatureMap, signer: Signer): nat {
    if m == [] then 0
    else (if m[0].key.signer == signer then 1 else 0) + Count(m[1..], signer)
  }

  /** Each signer occurs at most once. */
  ghost predicate NoDuplicates(m: SignatureMap) {
    forall signer :: Count(m, signer) <= 1
  }

  /** The signature each signer has, read from the last entry that carries it. */
  function Signatures(m: SignatureMap): map<Signer, Bytes> {
    if m == [] then map[]
    else
      var n := |m| - 1;
      Signatures(m[..n])[m[n].key.signer := m[n].value]
  }

  lemma {:induction false} CountConcat(a: SignatureMap, b: SignatureMap, signer: Signer)
    ensures Count(a + b, signer) == Count(a, signer) + Count(b, signer)
  {
    if a == [] {
      assert a + b == b;
    } else {
      assert (a + b)[1..] == a[1..] + b;
      CountConcat(a[1..], b, signer);
    }
  }

  lemma {:induction false} CountAfterDelete(m: SignatureMap, removed: Signer, signer: Signer)
    ensures Count(DeleteFirstEqual(m, removed), signer)
         == if signer == removed && Count(m, signer) > 0 then Count(m, signer) - 1 else Count(m, signer)
  {
    if m != [] && m[0].key.signer != removed {
      CountAfterDelete(m[1..], removed, signer);
      assert DeleteFirstEqual(m, removed)[1..] == DeleteFirstEqual(m[1..], removed);
    }
  }

  lemma {:induction false} HasImpliesCount(m: SignatureMap, owner: SignerObject)
    ensures Has(m, owner) ==> Count(m, owner.signer) > 0
  {
    if m != [] {
      HasImpliesCount(m[1..], owner);
    }
  }

  lemma {:induction false} HasAfterDelete(m: SignatureMap, signer: Signer, owner: SignerObject)
    ensures !Has(m, owner) ==> !Has(DeleteFirstEqual(m, signer), owner)
  {
    if m != [] && m[0].key.signer != signer {
      HasAfterDelete(m[1..], signer, owner);
      assert DeleteFirstEqual(m, signer)[1..] == DeleteFirstEqual(m[1..], signer);
    }
  }

  /**
   * A new signer object replaces one earlier entry of an equal signer, so it
   * ends up listed once exactly when it was listed at most once before.
   */
  lemma UpsertCount(m: SignatureMap, owner: SignerObject, signature: Bytes)
    requires !Has(m, owner)
    ensures
      var after := Count(Upsert(m, owner, signature), owner.signer);
      && after == (if Count(m, owner.signer) == 0 then 1 else Count(m, owner.signer))
      && (after == 1 <==> Count(m, owner.signer) <= 1)
  {
    var kept := DeleteFirstEqual(m, owner.signer);
    HasAfterDelete(m, owner.signer, owner);
    SetAbsent(kept, owner, signature);
    CountConcat(kept, [Entry(owner, signature)], owner.signer);
    CountAfterDelete(m, owner.signer, owner.signer);
  }

  lemma {:induction false} SignaturesHas(m: SignatureMap, signer: Signer)
    ensures signer in Signatures(m) <==> Count(m, signer) > 0
  {
    if m != [] {
      var n := |m| - 1;
      SignaturesHas(m[..n], signer);
      assert m == m[..n] + [m[n]];
      CountConcat(m[..n], [m[n]], signer);
    }
  }

  lemma {:induction false} SignaturesConcat(a: SignatureMap, b: SignatureMap)
    ensures Signatures(a + b) == Signatures(a) + Signatures(b)
  {
    if b == [] {
      assert a + b == a;
    } else {
      var n := |b| - 1;
      assert (a + b)[..|a| + n] == a + b[..n];
      SignaturesConcat(a, b[..n]);
    }
  }

  lemma SignaturesCons(head: Entry<SignerObject, Bytes>, tail: SignatureMap)
    ensures Signatures([head] + tail) == map[head.key.signer := head.value] + Signatures(tail)
  {
    SignaturesConcat([head], tail);
    assert [head][..0] == [];
  }

  lemma RemoveFromSum(p: map<Signer, Bytes>, q: map<Signer, Bytes>, signer: Signer)
    ensures signer !in p ==> p + (q - {signer}) == (p + q) - {signer}
    ensures p.Keys == {signer} && signer !in q ==> q == (p + q) - {signer}
  {
  }

  /** With no duplicate, deleting removes just that signer from the meaning. */
  lemma {:induction false} SignaturesAfterDelete(m: SignatureMap, signer: Signer)
    requires NoDuplicates(m)
    ensures Signatures(DeleteFirstEqual(m, signer)) == Signatures(m) - {signer}
  {
    if m != [] {
      var head, tail := m[0], m[1..];
      assert m == [head] + tail;
      SignaturesCons(head, tail);
      var first := map[head.key.signer := head.value];
      RemoveFromSum(first, Signatures(tail), signer);
      if head.key.signer == signer {
        assert Count(m, signer) == 1 + Count(tail, signer) <= 1;
        SignaturesHas(tail, signer);
      } else {
        TailNoDuplicates(m);
        SignaturesAfterDelete(tail, signer);
        SignaturesCons(head, DeleteFirstEqual(tail, signer));
      }
    }
  }

  lemma TailNoDuplicates(m: SignatureMap)
    requires m != [] && NoDuplicates(m)
    ensures NoDuplicates(m[1..])
  {
    var tail := m[1..];
    forall signer
      ensures Count(tail, signer) <= 1
    {
      assert Count(m, signer) <= 1;
    }
  }

  /** Upserting into a payload without duplicates is a map update. */
  lemma UpsertMeaning(m: SignatureMap, owner: SignerObject, signature: Bytes)
    requires NoDuplicates(m)
    ensures NoDuplicates(Upsert(m, owner, signature))
    ensures Signatures(Upsert(m, owner, signature)) == Signatures(m)[owner.signer := signature]
  {
    var kept := DeleteFirstEqual(m, owner.signer);
    var added := [Entry(owner, signature)];
    CountAfterDelete(m, owner.signer, owner.signer);
    assert Count(m, owner.signer) <= 1;
    HasImpliesCount(kept, owner);
    SetAbsent(kept, owner, signature);
    forall signer
      ensures Count(kept + added, signer) <= 1
    {
      assert Count(m, signer) <= 1;
      CountConcat(kept, added, signer);
      CountAfterDelete(m, owner.signer, signer);
    }
    SignaturesAfterDelete(m, owner.signer);
    SignaturesConcat(kept, added);
    assert added[..0] == [];
  }
}
