/**
 * Runs of signing calls by parties that pass an entry on: every signature in the
 * entry covers the digest the entry has now.
 */
module CoSigningRuns {
  import opened Wrappers
  import opened ByteStrings
  import opened Decimals
  import opened JsNumbers
  import opened OrderedMaps
  import opened Signers
  import opened ScVals
  import opened AuthPayloads
  import opened CanonicalPayloads
  import opened AuthDigests
  import opened AuthEntries
  import opened CoSigning

  /** Says whether a signature by a signer over a digest verifies. */
  type Verifier = (Signer, Bytes, Bytes) -> bool

  ghost predicate AreGenuine(verifies: Verifier, signers: seq<LocalSigner>) {
    forall i, digest :: 0 <= i < |signers| && signers[i].sign(digest).Some? ==>
                          verifies(signers[i].signer, digest, signers[i].sign(digest).value)
  }

  /** The signatures of an entry. */
  ghost function SignaturesOf(env: Env, entry: AuthEntry): map<Signer, Bytes> {
    if PayloadOf(env, entry).Some? then Signatures(PayloadOf(env, entry).value.signers) else map[]
  }

  /** The bytes whose hash is the current digest. */
  ghost function CurrentPreimage(env: Env, network: string, scheme: Scheme, entry: AuthEntry): Bytes
    requires PayloadOf(env, entry).Some?
  {
    Hashed(
      scheme,
      DigestInputOf(
        env, network, entry, GetCredentials(entry).value.expiration, PayloadOf(env, entry).value.ruleIds))
  }

  ghost function CurrentDigest(env: Env, network: string, scheme: Scheme, entry: AuthEntry): Bytes
    requires PayloadOf(env, entry).Some?
  {
    Digest(
      env, network, scheme, entry, GetCredentials(entry).value.expiration, PayloadOf(env, entry).value.ruleIds)
  }

  /**
   * The invariant: each signer once; as soon as there is a signature, a rule
   * selection and an address that XDR carries; and every signature verifies over
   * the current digest.
   */
  ghost predicate IsCovered(env: Env, network: string, scheme: Scheme, verifies: Verifier, entry: AuthEntry) {
    PayloadOf(env, entry).Some? ==>
      && NoDuplicates(PayloadOf(env, entry).value.signers)
      && (PayloadOf(env, entry).value.signers != [] ==>
            && PayloadOf(env, entry).value.ruleIds != [] && AreU32(PayloadOf(env, entry).value.ruleIds)
            && IsAddress(GetCredentials(entry).value.address))
      && forall s :: s in SignaturesOf(env, entry) ==>
                       verifies(s, CurrentDigest(env, network, scheme, entry), SignaturesOf(env, entry)[s])
  }

  /** No signature yet; rule ids may already be there. */
  ghost predicate IsUnsigned(env: Env, entry: AuthEntry) {
    PayloadOf(env, entry).Some? ==> PayloadOf(env, entry).value.signers == []
  }

  lemma UnsignedIsCovered(env: Env, network: string, scheme: Scheme, verifies: Verifier, entry: AuthEntry)
    requires IsUnsigned(env, entry)
    ensures IsCovered(env, network, scheme, verifies, entry)
  {
  }

  lemma {:induction false} CollectedVerify(verifies: Verifier, signers: seq<LocalSigner>, digest: Bytes, signer: Signer)
    requires AreGenuine(verifies, signers)
    requires Collected(signers, digest).Some? && signer in Collected(signers, digest).value
    ensures verifies(signer, digest, Collected(signers, digest).value[signer])
    decreases |signers|
  {
    var n := |signers| - 1;
    if signers[n].signer != signer {
      var front := signers[..n];
      assert forall i :: 0 <= i < n ==> front[i] == signers[i];
      CollectedVerify(verifies, front, digest, signer);
    }
  }

  /**
   * What a successful call keeps: the call tree and the addressee, the
   * expiration and the rule ids once there is a signature and a rule selection,
   * and every signature of a signer who is not in the list.
   */
  lemma CallKeeps(env: Env, entry: AuthEntry, signers: seq<LocalSigner>, o: Options)
    returns (digest: Bytes)
    requires IsAddressCodec(env.addresses) && HasNoDuplicates(env, entry)
    requires Sign(env, entry, signers, o).Ok?
    ensures
      var signed := Sign(env, entry, signers, o).value;
      && PayloadOf(env, entry).Some? && PayloadOf(env, signed).Some?
      && NoDuplicates(PayloadOf(env, signed).value.signers)
      && PayloadOf(env, signed).value.ruleIds == o.ruleIds && o.ruleIds != [] && AreU32(o.ruleIds)
      && IsAddress(GetCredentials(signed).value.address)
      && ParseScheme(o.scheme).Some?
      && CurrentDigest(env, o.network, ParseScheme(o.scheme).value, signed) == digest
      && Collected(signers, digest).Some?
      && SignaturesOf(env, signed) == SignaturesOf(env, entry) + Collected(signers, digest).value
      && signed.root == entry.root
      && signed == WithSignature(entry, GetCredentials(signed).value.expiration, GetCredentials(signed).value.signature)
    ensures PayloadOf(env, entry).value.signers != [] ==>
              GetCredentials(Sign(env, entry, signers, o).value).value.expiration
              == GetCredentials(entry).value.expiration
    ensures PayloadOf(env, entry).value.ruleIds != [] ==> PayloadOf(env, entry).value.ruleIds == o.ruleIds
  {
    var expiration, d, before := SignedIsReady(env, entry, signers, o);
    digest := d;
    var signed := Sign(env, entry, signers, o).value;
    CheckKeeps(env, entry, o);
    SignOutcome(env, entry, signers, o, entry, expiration, digest, before);
    WrittenEntry(env, entry, o, expiration, digest, before, before + Collected(signers, digest).value, signed);
    CheckedAddress(env, entry, o);
    WrittenCredentials(
      entry, GetCredentials(signed).value.expiration, GetCredentials(signed).value.signature);
  }

  /** An address that can be printed is one that XDR carries. */
  lemma CheckedAddress(env: Env, entry: AuthEntry, o: Options)
    requires IsAddressCodec(env.addresses) && Check(env, entry, o).Ok?
    ensures GetCredentials(entry).Some? && IsAddress(GetCredentials(entry).value.address)
  {
    assert env.addresses.format(GetCredentials(entry).value.address).Some?;
  }

  /** What the checks compare with the payload that is already there. */
  lemma CheckKeeps(env: Env, entry: AuthEntry, o: Options)
    requires Check(env, entry, o).Ok?
    ensures PayloadOf(env, entry) == Some(Check(env, entry, o).value.payload)
    ensures o.ruleIds != []
    ensures PayloadOf(env, entry).value.signers != [] ==>
              Check(env, entry, o).value.expiration == GetCredentials(entry).value.expiration
    ensures PayloadOf(env, entry).value.ruleIds != [] ==> PayloadOf(env, entry).value.ruleIds == o.ruleIds
  {
    CheckedPayload(env, entry, o);
    var payload := PayloadOf(env, entry).value;
    if payload.ruleIds != [] {
      JoinInjective(payload.ruleIds, o.ruleIds);
    }
  }

  lemma WrittenEntry(
    env: Env, entry: AuthEntry, o: Options, expiration: nat, digest: Bytes,
    before: map<Signer, Bytes>, after: map<Signer, Bytes>, signed: AuthEntry)
    requires IsAddressCodec(env.addresses)
    requires Ready(env, entry, o, entry, expiration, digest, before)
    requires IsWritten(env, entry, expiration, AsU32(o.ruleIds), after, signed)
    ensures PayloadOf(env, signed).Some?
    ensures
      var payload := PayloadOf(env, signed).value;
      && payload.ruleIds == o.ruleIds
      && NoDuplicates(payload.signers)
      && Signatures(payload.signers) == after
      && CurrentDigest(env, o.network, ParseScheme(o.scheme).value, signed) == digest
      && GetCredentials(signed).value.expiration == expiration
      && signed == WithSignature(entry, expiration, GetCredentials(signed).value.signature)
      && signed.root == entry.root
  {
    WrittenIsReady(env, entry, o, entry, expiration, digest, before, after, signed);
    CheckedPayload(env, signed, o);
    WrittenPayload(env, entry, expiration, AsU32(o.ruleIds), after, signed);
    DigestOfReady(env, signed, o, entry, expiration, digest, after);
  }

  lemma WrittenPayload(
    env: Env, base: AuthEntry, expiration: nat, ids: seq<nat>, signatures: map<Signer, Bytes>, written: AuthEntry)
    requires IsAddressCodec(env.addresses) && GetCredentials(base).Some?
    requires IsWritten(env, base, expiration, ids, signatures, written)
    ensures PayloadOf(env, written).Some? && PayloadOf(env, written).value.ruleIds == ids
    ensures GetCredentials(written).value.expiration == expiration
    ensures written == WithSignature(base, expiration, GetCredentials(written).value.signature)
    ensures written.root == base.root
  {
    var payload: AuthPayload :| IsWrittenAs(env, base, expiration, ids, signatures, written, payload);
    var signature := Write(env.addresses, payload).value;
    var back := ReadAfterWrite(env.addresses, payload);
    WrittenCredentials(base, expiration, signature);
  }

  /** A successful call of genuine signers keeps the invariant. */
  lemma CallKeepsCovered(
    env: Env, network: string, scheme: Scheme, verifies: Verifier,
    entry: AuthEntry, signers: seq<LocalSigner>, o: Options)
    requires IsAddressCodec(env.addresses)
    requires o.network == network && ParseScheme(o.scheme) == Some(scheme)
    requires AreGenuine(verifies, signers) && IsCovered(env, network, scheme, verifies, entry)
    requires Sign(env, entry, signers, o).Ok?
    ensures IsCovered(env, network, scheme, verifies, Sign(env, entry, signers, o).value)
  {
    var digest := CallKeeps(env, entry, signers, o);
    var signed := Sign(env, entry, signers, o).value;
    forall s | s in SignaturesOf(env, signed)
      ensures verifies(s, digest, SignaturesOf(env, signed)[s])
    {
      if s in Collected(signers, digest).value {
        CollectedVerify(verifies, signers, digest, s);
      } else {
        OldSignatureStillCovers(env, network, scheme, entry, signed);
      }
    }
  }

  lemma OldSignatureStillCovers(env: Env, network: string, scheme: Scheme, entry: AuthEntry, signed: AuthEntry)
    requires PayloadOf(env, entry).Some? && PayloadOf(env, signed).Some?
    requires
      var c := GetCredentials(signed).value;
      signed == WithSignature(entry, c.expiration, c.signature)
    requires GetCredentials(signed).value.expiration == GetCredentials(entry).value.expiration
    requires PayloadOf(env, signed).value.ruleIds == PayloadOf(env, entry).value.ruleIds
    ensures CurrentDigest(env, network, scheme, signed) == CurrentDigest(env, network, scheme, entry)
  {
    var c := GetCredentials(signed).value;
    DigestIgnoresSignature(
      env, network, scheme, entry, c.signature, c.expiration, c.expiration, PayloadOf(env, entry).value.ruleIds);
  }

  // ------------------------------------------------------------------- runs

  /** One party's call; network and scheme are those of the run. */
  datatype Call = Call(signers: seq<LocalSigner>, ruleIds: seq<int>, expiration: Option<JsNumber>)

  function OptionsOf(network: string, scheme: string, call: Call): Options {
    Options(network, scheme, call.ruleIds, call.expiration)
  }

  /** Parties call in turn; a call that throws leaves the entry as it was. */
  function Run(env: Env, network: string, scheme: string, entry: AuthEntry, calls: seq<Call>): AuthEntry
    decreases |calls|
  {
    if calls == [] then entry
    else
      var next := match Sign(env, entry, calls[0].signers, OptionsOf(network, scheme, calls[0]))
        case Ok(signed) => signed
        case Err(_) => entry;
      Run(env, network, scheme, next, calls[1..])
  }

  ghost predicate AllGenuine(verifies: Verifier, calls: seq<Call>) {
    forall i :: 0 <= i < |calls| ==> AreGenuine(verifies, calls[i].signers)
  }

  lemma {:induction false} RunKeepsCovered(
    env: Env, network: string, schemeName: string, scheme: Scheme, verifies: Verifier,
    entry: AuthEntry, calls: seq<Call>)
    requires IsAddressCodec(env.addresses) && ParseScheme(schemeName) == Some(scheme)
    requires AllGenuine(verifies, calls) && IsCovered(env, network, scheme, verifies, entry)
    ensures IsCovered(env, network, scheme, verifies, Run(env, network, schemeName, entry, calls))
    decreases |calls|
  {
    if calls != [] {
      var o := OptionsOf(network, schemeName, calls[0]);
      if Sign(env, entry, calls[0].signers, o).Ok? {
        CallKeepsCovered(env, network, scheme, verifies, entry, calls[0].signers, o);
        RunKeepsCovered(
          env, network, schemeName, scheme, verifies, Sign(env, entry, calls[0].signers, o).value, calls[1..]);
      } else {
        RunKeepsCovered(env, network, schemeName, scheme, verifies, entry, calls[1..]);
      }
    }
  }

  /** The entries differ at most in expiration and signature. */
  predicate HasSameSubject(a: AuthEntry, b: AuthEntry) {
    && a.root == b.root
    && (a.credentials.AddressV2? <==> b.credentials.AddressV2?)
    && (GetCredentials(a).Some? <==> GetCredentials(b).Some?)
    && (GetCredentials(a).Some? ==>
          && GetCredentials(a).value.nonce == GetCredentials(b).value.nonce
          && GetCredentials(a).value.address == GetCredentials(b).value.address)
  }

  lemma CallKeepsSubject(env: Env, entry: AuthEntry, signers: seq<LocalSigner>, o: Options)
    requires Sign(env, entry, signers, o).Ok?
    ensures HasSameSubject(entry, Sign(env, entry, signers, o).value)
  {
    var checked := Check(env, entry, o).value;
    var digest := Digest(
      env, o.network, ParseScheme(o.scheme).value, entry, checked.expiration, AsU32(o.ruleIds));
    var payload := AuthPayload(AsU32(o.ruleIds), SignAll(checked.payload.signers, signers, digest).value);
    assert Sign(env, entry, signers, o) == Finish(env, entry, checked.expiration, payload);
  }

  lemma {:induction false} RunKeepsSubject(
    env: Env, network: string, schemeName: string, entry: AuthEntry, calls: seq<Call>)
    ensures HasSameSubject(entry, Run(env, network, schemeName, entry, calls))
    decreases |calls|
  {
    if calls != [] {
      var o := OptionsOf(network, schemeName, calls[0]);
      if Sign(env, entry, calls[0].signers, o).Ok? {
        CallKeepsSubject(env, entry, calls[0].signers, o);
        RunKeepsSubject(env, network, schemeName, Sign(env, entry, calls[0].signers, o).value, calls[1..]);
      } else {
        RunKeepsSubject(env, network, schemeName, entry, calls[1..]);
      }
    }
  }

  /**
   * Safety: in every run of calls from an unsigned entry, in whatever order and
   * with whatever options the parties call, every collected signature verifies
   * over one digest: that of the nonce, the address and the calls of the entry
   * they were given, with the expiration and the rule ids of the final one.
   */
  lemma EverySignatureCoversFinalDigest(
    env: Env, network: string, schemeName: string, scheme: Scheme, verifies: Verifier,
    entry: AuthEntry, calls: seq<Call>,
    signer: Signer)
    requires IsAddressCodec(env.addresses) && ParseScheme(schemeName) == Some(scheme)
    requires AllGenuine(verifies, calls) && IsUnsigned(env, entry)
    ensures
      var final := Run(env, network, schemeName, entry, calls);
      signer in SignaturesOf(env, final) ==>
        && PayloadOf(env, final).Some? && GetCredentials(entry).Some?
        && verifies(
             signer,
             ExpectedDigest(
               env, network, schemeName, entry, GetCredentials(final).value.expiration,
               PayloadOf(env, final).value.ruleIds),
             SignaturesOf(env, final)[signer])
  {
    UnsignedIsCovered(env, network, scheme, verifies, entry);
    RunKeepsCovered(env, network, schemeName, scheme, verifies, entry, calls);
    RunKeepsSubject(env, network, schemeName, entry, calls);
    var final := Run(env, network, schemeName, entry, calls);
    if signer in SignaturesOf(env, final) {
      DigestIsExpected(
        env, network, schemeName, final, GetCredentials(final).value.expiration, PayloadOf(env, final).value.ruleIds);
    }
  }

  /**
   * And that digest is of no other authorization: an entry with the same digest
   * has the final expiration and rule ids and authorizes the same, unless the hash
   * has a collision. So no signature of a run can be moved to another entry.
   */
  lemma FinalDigestIsOfNoOther(
    env: Env, network: string, schemeName: string, scheme: Scheme, verifies: Verifier,
    entry: AuthEntry, calls: seq<Call>,
    network': string, scheme': Scheme, other: AuthEntry, expiration: nat, ids: seq<nat>)
    requires IsEnv(env) && IsInjective(env.envelope) && ParseScheme(schemeName) == Some(scheme)
    requires AllGenuine(verifies, calls) && IsUnsigned(env, entry)
    requires GetCredentials(other).Some? && IsAddress(GetCredentials(other).value.address) && AreU32(ids)
    requires SignaturesOf(env, Run(env, network, schemeName, entry, calls)) != map[]
    requires CurrentDigest(env, network, scheme, Run(env, network, schemeName, entry, calls))
          == Digest(env, network', scheme', other, expiration, ids)
    ensures GetCredentials(entry).Some? && PayloadOf(env, Run(env, network, schemeName, entry, calls)).Some?
    ensures
      var final := Run(env, network, schemeName, entry, calls);
      var l, selected := GetCredentials(final).value.expiration, PayloadOf(env, final).value.ruleIds;
      || DigestsCollide(env, network, scheme, final, l, selected, network', scheme', other, expiration, ids)
      || (&& expiration == l && ids == selected && scheme' == scheme
          && AuthorizeTheSame(env, network, entry, network', other)
          && (entry.credentials.AddressV2? || scheme == PreimageV1 ==>
                GetCredentials(entry).value.address == GetCredentials(other).value.address))
  {
    var final := Run(env, network, schemeName, entry, calls);
    UnsignedIsCovered(env, network, scheme, verifies, entry);
    RunKeepsCovered(env, network, schemeName, scheme, verifies, entry, calls);
    RunKeepsSubject(env, network, schemeName, entry, calls);
    DigestBindsEntry(
      env,
      network, scheme, final, GetCredentials(final).value.expiration, PayloadOf(env, final).value.ruleIds,
      network', scheme', other, expiration, ids);
  }

  /**
   * Once an entry of a run carries a signature, no later call changes its
   * expiration, its rule ids or what it authorizes, and no signer is dropped.
   */
  lemma {:induction false} SignedEntryIsFixed(
    env: Env, network: string, schemeName: string, entry: AuthEntry, calls: seq<Call>)
    requires IsAddressCodec(env.addresses) && HasNoDuplicates(env, entry)
    requires PayloadOf(env, entry).Some?
    requires PayloadOf(env, entry).value.signers != [] && PayloadOf(env, entry).value.ruleIds != []
    ensures
      var final := Run(env, network, schemeName, entry, calls);
      && PayloadOf(env, final).Some?
      && final.root == entry.root
      && GetCredentials(final).value.expiration == GetCredentials(entry).value.expiration
      && PayloadOf(env, final).value.ruleIds == PayloadOf(env, entry).value.ruleIds
      && SignaturesOf(env, entry).Keys <= SignaturesOf(env, final).Keys
    decreases |calls|
  {
    if calls != [] {
      var o := OptionsOf(network, schemeName, calls[0]);
      if Sign(env, entry, calls[0].signers, o).Ok? {
        var signed := Sign(env, entry, calls[0].signers, o).value;
        var digest := CallKeeps(env, entry, calls[0].signers, o);
        var first := PayloadOf(env, entry).value.signers[0].key.signer;
        CountAt(PayloadOf(env, entry).value.signers, 0);
        SignaturesHas(PayloadOf(env, entry).value.signers, first);
        assert first in SignaturesOf(env, signed);
        SignedEntryIsFixed(env, network, schemeName, signed, calls[1..]);
      } else {
        SignedEntryIsFixed(env, network, schemeName, entry, calls[1..]);
      }
    }
  }

  // --------------------------------------------- the unchecked rule selection

  /**
   * Without the invariant the claim fails: a payload that already carries
   * signatures is signed under the rule ids it was signed for exactly when it
   * names some. One with an empty list accepts any selection.
   */
  lemma RuleSelectionKeptIff(env: Env, entry: AuthEntry, signers: seq<LocalSigner>, o: Options)
    requires IsAddressCodec(env.addresses) && HasNoDuplicates(env, entry)
    requires Sign(env, entry, signers, o).Ok?
    ensures PayloadOf(env, entry).Some? && PayloadOf(env, Sign(env, entry, signers, o).value).Some?
    ensures PayloadOf(env, Sign(env, entry, signers, o).value).value.ruleIds == PayloadOf(env, entry).value.ruleIds
       <==> PayloadOf(env, entry).value.ruleIds != []
  {
    var digest := CallKeeps(env, entry, signers, o);
  }

  /**
   * In that case the earlier signatures are left behind. Every signer who is not
   * in the list keeps the old signature, but the bytes that the digest hashes
   * have changed, and so has the digest, or the hash has a collision.
   */
  lemma EmptySelectionLeavesSignaturesBehind(env: Env, entry: AuthEntry, signers: seq<LocalSigner>, o: Options)
    requires IsEnv(env) && HasNoDuplicates(env, entry)
    requires Sign(env, entry, signers, o).Ok?
    requires PayloadOf(env, entry).Some? && PayloadOf(env, entry).value.ruleIds == []
    ensures PayloadOf(env, Sign(env, entry, signers, o).value).Some? && ParseScheme(o.scheme).Some?
    ensures
      var signed := Sign(env, entry, signers, o).value;
      forall s :: s in SignaturesOf(env, entry) ==>
                    && s in SignaturesOf(env, signed)
                    && (!IsAmong(s, signers) ==> SignaturesOf(env, signed)[s] == SignaturesOf(env, entry)[s])
    ensures
      var signed, scheme := Sign(env, entry, signers, o).value, ParseScheme(o.scheme).value;
      var x, y := CurrentPreimage(env, o.network, scheme, entry), CurrentPreimage(env, o.network, scheme, signed);
      && x != y
      && (CurrentDigest(env, o.network, scheme, entry) == CurrentDigest(env, o.network, scheme, signed)
          ==> Collides(env.hash, x, y))
  {
    var digest := CallKeeps(env, entry, signers, o);
    var signed := Sign(env, entry, signers, o).value;
    OthersKeepSignatures(SignaturesOf(env, entry), signers, digest);
    PreimagesDiffer(env, o.network, ParseScheme(o.scheme).value, entry, signed, o);
  }

  predicate IsAmong(s: Signer, signers: seq<LocalSigner>) {
    exists i :: 0 <= i < |signers| && signers[i].signer == s
  }

  lemma OthersKeepSignatures(before: map<Signer, Bytes>, signers: seq<LocalSigner>, digest: Bytes)
    requires Collected(signers, digest).Some?
    ensures
      var after := before + Collected(signers, digest).value;
      forall s :: s in before ==> s in after && (!IsAmong(s, signers) ==> after[s] == before[s])
  {
    forall s | s in Collected(signers, digest).value
      ensures IsAmong(s, signers)
    {
      CollectedOnlyThese(signers, digest, s);
    }
  }

  /** An entry of a contract account, unsigned, that authorizes the creation of a contract. */
  function PlainEntry(account: ScAddress, signature: ScVal): AuthEntry {
    AuthEntry(
      AddressV2(AddressCredentials(account, 0, 7, signature)), Invocation(CreateContract([]), []))
  }

  /** A written payload with one signature and no rule ids. */
  lemma EmptySelectionIsWritten(codec: AddressCodec, account: ScAddress, earlier: Bytes)
    returns (signature: ScVal, payload: AuthPayload)
    requires IsAddressCodec(codec) && codec.format(account).Some? && |earlier| < U32_LIMIT
    ensures Read(codec, signature) == Ok(payload)
    ensures payload.ruleIds == [] && NoDuplicates(payload.signers)
    ensures Signatures(payload.signers) == map[Delegated(codec.format(account).value) := earlier]
  {
    var m := [Entry(SignerObject(0, Delegated(codec.format(account).value)), earlier)];
    OneSignature(m);
    AddressIsWritable(codec, account, earlier);
    WritesIff(codec, AuthPayload([], m));
    payload := ReadAfterWrite(codec, AuthPayload([], m));
    signature := Write(codec, AuthPayload([], m)).value;
  }

  /** A call of one more signer on a plain entry with a readable payload without rule ids. */
  lemma PlainEntryIsSigned(
    env: Env, account: ScAddress, signature: ScVal, payload: AuthPayload, signer: LocalSigner, o: Options)
    requires IsAddressCodec(env.addresses) && env.addresses.format(account).Some?
    requires Read(env.addresses, signature) == Ok(payload) && payload.ruleIds == []
    requires NoDuplicates(payload.signers)
    requires ParseScheme(o.scheme).Some? && AreU32(o.ruleIds) && o.ruleIds != [] && o.expiration == None
    requires forall digest :: signer.sign(digest) == Some([2])
    requires CanWrite(env.addresses, AsU32(o.ruleIds), Signatures(payload.signers) + map[signer.signer := [2]])
    ensures Sign(env, PlainEntry(account, signature), [signer], o).Ok?
  {
    var entry, before := PlainEntry(account, signature), Signatures(payload.signers);
    PlainEntryChecks(env, account, signature, o, payload);
    var digest := Digest(env, o.network, ParseScheme(o.scheme).value, entry, 7, AsU32(o.ruleIds));
    SignOutcome(env, entry, [signer], o, entry, 7, digest, before);
    CollectedOne(signer, digest);
  }

  /**
   * Such entries exist: in every environment that can print some address, this
   * one carries a signature and no rule ids, and another signer's call on it
   * succeeds.
   */
  lemma EmptySelectionIsSigned(env: Env, account: ScAddress, earlier: Bytes, network: string)
    returns (entry: AuthEntry, signer: LocalSigner, o: Options)
    requires IsAddressCodec(env.addresses) && env.addresses.format(account).Some? && |earlier| < U32_LIMIT
    ensures
      var wallet := env.addresses.format(account).value;
      && PayloadOf(env, entry).Some? && HasNoDuplicates(env, entry)
      && PayloadOf(env, entry).value.ruleIds == []
      && SignaturesOf(env, entry) == map[Delegated(wallet) := earlier]
      && signer.signer != Delegated(wallet)
      && Sign(env, entry, [signer], o).Ok?
  {
    var wallet := env.addresses.format(account).value;
    var signature, payload := EmptySelectionIsWritten(env.addresses, account, earlier);
    entry := PlainEntry(account, signature);
    assert PayloadOf(env, entry) == Some(payload);
    signer := LocalSigner(1, External(wallet, [1]), _ => Some([2]));
    o := Options(network, "legacy-concat", [1], None);
    TwoAreWritable(env.addresses, account, earlier, [2]);
    assert AsU32(o.ruleIds) == [1];
    PlainEntryIsSigned(env, account, signature, payload, signer, o);
  }

  lemma OneSignature(m: SignatureMap)
    requires |m| == 1
    ensures NoDuplicates(m)
    ensures Signatures(m) == map[m[0].key.signer := m[0].value]
  {
    assert m[..0] == [];
    NoDuplicatesIf(m);
  }

  lemma AddressIsWritable(codec: AddressCodec, account: ScAddress, signature: Bytes)
    requires IsAddressCodec(codec) && codec.format(account).Some? && |signature| < U32_LIMIT
    ensures CanWriteSignature(codec, Delegated(codec.format(account).value), signature)
    ensures CanWriteSignature(codec, External(codec.format(account).value, [1]), signature)
  {
    assert |DELEGATED| == 9 && |EXTERNAL| == 8;
    assert IsEncodable(ScvAddress(account)) && IsEncodable(ScvBytes([1]));
  }

  lemma TwoAreWritable(codec: AddressCodec, account: ScAddress, earlier: Bytes, later: Bytes)
    requires IsAddressCodec(codec) && codec.format(account).Some? && |earlier| < U32_LIMIT && |later| < U32_LIMIT
    ensures
      var wallet := codec.format(account).value;
      CanWrite(codec, [1], map[Delegated(wallet) := earlier] + map[External(wallet, [1]) := later])
  {
    AddressIsWritable(codec, account, earlier);
    AddressIsWritable(codec, account, later);
  }

  /** The checks pass on a plain entry with a readable payload without rule ids. */
  lemma PlainEntryChecks(env: Env, account: ScAddress, signature: ScVal, o: Options, payload: AuthPayload)
    requires env.addresses.format(account).Some?
    requires Read(env.addresses, signature) == Ok(payload) && payload.ruleIds == []
    requires o.ruleIds != [] && o.expiration == None
    ensures Check(env, PlainEntry(account, signature), o) == Ok(Checked(7, payload))
  {
    var root := PlainEntry(account, signature).root;
    assert !HasUnsupportedTarget(env.addresses, root);
    assert !HasMutation(env.addresses, root, env.addresses.format(account).value);
    NormalizeRoundsUp(Finite(7.0));
    assert (7 as nat) as real == 7.0;
  }

  lemma PreimagesDiffer(env: Env, network: string, scheme: Scheme, entry: AuthEntry, signed: AuthEntry, o: Options)
    requires IsEnv(env) && Check(env, entry, o).Ok? && AreU32(o.ruleIds)
    requires PayloadOf(env, entry).Some? && PayloadOf(env, signed).Some?
    requires
      var c := GetCredentials(signed).value;
      signed == WithSignature(entry, c.expiration, c.signature)
    requires PayloadOf(env, entry).value.ruleIds == [] && PayloadOf(env, signed).value.ruleIds == o.ruleIds != []
    ensures CurrentPreimage(env, network, scheme, signed) != CurrentPreimage(env, network, scheme, entry)
  {
    var c, d := GetCredentials(entry).value, GetCredentials(signed).value;
    var a := DigestInputOf(env, network, entry, c.expiration, []);
    var b := DigestInputOf(env, network, signed, d.expiration, AsU32(o.ruleIds));
    assert env.addresses.format(c.address).Some?;
    assert d.address == c.address;
    if Hashed(scheme, a) == Hashed(scheme, b) {
      DigestBinds(env.hash, scheme, a, scheme, b);
      assert false;
    }
  }
}
