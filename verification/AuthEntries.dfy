/** Authorization entries, the checks that come before any signature, and the digest that is signed. */
module AuthEntries {
  import opened Wrappers
  import opened ByteStrings
  import opened Decimals
  import opened JsNumbers
  import opened ScVals
  import opened AuthPayloads
  import opened CanonicalPayloads
  import opened AuthDigests
  import opened AuthEntryInput

  datatype AddressCredentials =
    AddressCredentials(address: ScAddress, nonce: int, expiration: nat, signature: ScVal)

  datatype Credentials =
    | SourceAccount
    | AddressV1(v1: AddressCredentials)
    | AddressV2(v2: AddressCredentials)
    | AddressWithDelegates(inner: AddressCredentials, delegates: ScVal)

  datatype AuthorizedFunction =
    | ContractFn(contract: ScAddress, name: string, args: seq<ScVal>)
    | CreateContract(xdr: Bytes)

  datatype Invocation = Invocation(call: AuthorizedFunction, children: seq<Invocation>)

  datatype AuthEntry = AuthEntry(credentials: Credentials, root: Invocation)

  /**
   * The host's preimage of an authorization: `SorobanAuthorization`, or for V2
   * credentials `SorobanAuthorizationWithAddress`. The signature is not part of it.
   */
  datatype HostPreimage = HostPreimage(
    networkId: Bytes, nonce: int, expiration: nat, address: Option<ScAddress>, root: Invocation)

  /**
   * What comes from outside: the strkey codec, the hash, the hash of a network's
   * passphrase, the encoding of the host's preimage, and the entry codec.
   */
  datatype Env = Env(
    addresses: AddressCodec,
    hash: Bytes -> Bytes,
    networkId: string -> Bytes,
    envelope: HostPreimage -> Bytes,
    entries: Codec<AuthEntry>)

  ghost predicate IsEnv(env: Env) {
    && IsAddressCodec(env.addresses)
    && (forall b: Bytes :: |env.hash(b)| == 32)
    && IsCodec(env.entries)
  }

  /** Different preimages have different encodings. */
  ghost predicate IsInjective(envelope: HostPreimage -> Bytes) {
    forall p: HostPreimage, q: HostPreimage :: envelope(p) == envelope(q) ==> p == q
  }

  datatype SignError =
    | NoSigners
    | UnknownScheme
    | BadInput(input: InputError)
    | DelegatesUnsupported
    | NotAddressCredentials
    | UnsupportedCredentialAddress
    | UnsupportedTarget
    | WalletMutation
    | ExpirationRequired
    | ExpirationNotFinite
    | ExpirationNotU32
    | BadPayload(payload: PayloadError)
    | ExpirationMismatch
    | RuleIdsRequired
    | RuleIdsMismatch
    | RuleIdsNotU32
    | SignerFailed
    | PayloadNotWritable

  // ------------------------------------------------------------- expiration

  /** `normalizeSignatureExpirationLedger`. */
  function NormalizeExpiration(n: JsNumber): Result<nat, SignError> {
    if !n.Finite? then Err(ExpirationNotFinite)
    else if n.value < 0.0 then Err(ExpirationNotU32)
    else if Ceil(n.value) >= U32_LIMIT then Err(ExpirationNotU32)
    else Ok(Ceil(n.value))
  }

  /** The result is the least ledger not before the requested one. */
  lemma NormalizeRoundsUp(n: JsNumber)
    ensures NormalizeExpiration(n).Ok? <==> n.Finite? && 0.0 <= n.value <= (U32_LIMIT - 1) as real
    ensures NormalizeExpiration(n).Ok? ==>
              var ledger := NormalizeExpiration(n).value;
              n.value <= ledger as real < n.value + 1.0 && ledger < U32_LIMIT
  {
  }

  // -------------------------------------------------------------- mutations

  const MUTATIONS: set<string> := {
    "execute", "upgrade", "add_policy", "remove_policy", "add_signer", "remove_signer",
    "add_context_rule", "remove_context_rule", "batch_add_signer",
    "update_context_rule_name", "update_context_rule_valid_until"
  }

  /** The call is one of the wallet's own administrative functions. */
  predicate IsMutation(codec: AddressCodec, call: AuthorizedFunction, wallet: string) {
    call.ContractFn? && codec.format(call.contract) == Some(wallet) && call.name in MUTATIONS
  }

  /** Some call in the tree targets an address the SDK cannot print. */
  predicate HasUnsupportedTarget(codec: AddressCodec, invocation: Invocation) {
    || (invocation.call.ContractFn? && codec.format(invocation.call.contract) == None)
    || exists i :: 0 <= i < |invocation.children| && HasUnsupportedTarget(codec, invocation.children[i])
  }

  predicate HasMutation(codec: AddressCodec, invocation: Invocation, wallet: string) {
    || IsMutation(codec, invocation.call, wallet)
    || exists i :: 0 <= i < |invocation.children| && HasMutation(codec, invocation.children[i], wallet)
  }

  /** `assertWalletMutationIntent` without a host function. */
  function RefuseMutations(codec: AddressCodec, entry: AuthEntry, wallet: string): Option<SignError> {
    if HasUnsupportedTarget(codec, entry.root) then Some(UnsupportedTarget)
    else if HasMutation(codec, entry.root, wallet) then Some(WalletMutation)
    else None
  }

  /** The invocation reached from `root` by child indices. */
  function Node(root: Invocation, path: seq<nat>): Option<Invocation>
    decreases |path|
  {
    if path == [] then Some(root)
    else if path[0] >= |root.children| then None
    else Node(root.children[path[0]], path[1..])
  }

  lemma {:induction false} MutationPath(codec: AddressCodec, root: Invocation, wallet: string)
    returns (path: seq<nat>)
    requires HasMutation(codec, root, wallet)
    ensures Node(root, path).Some? && IsMutation(codec, Node(root, path).value.call, wallet)
    decreases root
  {
    if IsMutation(codec, root.call, wallet) {
      path := [];
    } else {
      var i: nat :| i < |root.children| && HasMutation(codec, root.children[i], wallet);
      var rest := MutationPath(codec, root.children[i], wallet);
      path := [i] + rest;
      assert path[1..] == rest;
    }
  }

  // ----------------------------------------------------------------- checks

  /** Address credentials of version 1 or 2. */
  function GetCredentials(entry: AuthEntry): Option<AddressCredentials> {
    match entry.credentials
    case AddressV1(c) => Some(c)
    case AddressV2(c) => Some(c)
    case _ => None
  }

  function SetCredentials(entry: AuthEntry, c: AddressCredentials): AuthEntry {
    match entry.credentials
    case AddressV1(_) => entry.(credentials := AddressV1(c))
    case AddressV2(_) => entry.(credentials := AddressV2(c))
    case _ => entry
  }

  /** The entry with another expiration and signature. */
  function WithSignature(entry: AuthEntry, expiration: nat, signature: ScVal): AuthEntry {
    match GetCredentials(entry)
    case None => entry
    case Some(c) => SetCredentials(entry, c.(expiration := expiration, signature := signature))
  }

  datatype Options = Options(
    network: string, scheme: string, ruleIds: seq<int>, expiration: Option<JsNumber>)

  /** What the checks establish: the ledger to sign for and the payload so far. */
  datatype Checked = Checked(expiration: nat, payload: AuthPayload)

  function RequestedExpiration(c: AddressCredentials, o: Options): JsNumber {
    match o.expiration
    case None => Finite(c.expiration as real)
    case Some(n) => n
  }

  function Check(env: Env, entry: AuthEntry, o: Options): Result<Checked, SignError> {
    if entry.credentials.AddressWithDelegates? then Err(DelegatesUnsupported)
    else
      match GetCredentials(entry)
      case None => Err(NotAddressCredentials)
      case Some(c) =>
        match env.addresses.format(c.address)
        case None => Err(UnsupportedCredentialAddress)
        case Some(wallet) =>
          match RefuseMutations(env.addresses, entry, wallet)
          case Some(e) => Err(e)
          case None => CheckPayload(env, c, o)
  }

  function CheckPayload(env: Env, c: AddressCredentials, o: Options): Result<Checked, SignError> {
    var requested := RequestedExpiration(c, o);
    if IsFalsy(requested) then Err(ExpirationRequired)
    else
      match NormalizeExpiration(requested)
      case Err(e) => Err(e)
      case Ok(expiration) =>
        match Read(env.addresses, c.signature)
        case Err(e) => Err(BadPayload(e))
        case Ok(payload) =>
          if |payload.signers| > 0 && expiration != c.expiration then Err(ExpirationMismatch)
          else if o.ruleIds == [] then Err(RuleIdsRequired)
          else if |payload.ruleIds| > 0 && Join(payload.ruleIds) != Join(o.ruleIds) then Err(RuleIdsMismatch)
          else Ok(Checked(expiration, payload))
  }

  predicate AreU32(ids: seq<int>) {
    |ids| < U32_LIMIT && forall i :: 0 <= i < |ids| ==> 0 <= ids[i] < U32_LIMIT
  }

  function AsU32(ids: seq<int>): (r: seq<nat>)
    requires AreU32(ids)
    ensures r == ids
  {
    ids
  }

  // ----------------------------------------------------------------- digest

  /** `buildAuthorizationEntryPreimage`. */
  function HostPreimageOf(env: Env, network: string, entry: AuthEntry): HostPreimage
    requires GetCredentials(entry).Some?
  {
    var c := GetCredentials(entry).value;
    HostPreimage(
      env.networkId(network), c.nonce, c.expiration, if entry.credentials.AddressV2? then Some(c.address) else None,
      entry.root)
  }

  /** `buildSignaturePayload`: the expiration is written into the entry first. */
  function SignaturePayload(env: Env, network: string, entry: AuthEntry, expiration: nat): Bytes
    requires GetCredentials(entry).Some?
  {
    var stamped := WithSignature(entry, expiration, GetCredentials(entry).value.signature);
    env.hash(env.envelope(HostPreimageOf(env, network, stamped)))
  }

  function DigestInputOf(env: Env, network: string, entry: AuthEntry, expiration: nat, ids: seq<nat>): DigestInput
    requires GetCredentials(entry).Some?
  {
    DigestInput(
      GetCredentials(entry).value.address, SignaturePayload(env, network, entry, expiration), ids)
  }

  /** The digest that signers of the entry sign. */
  function Digest(env: Env, network: string, scheme: Scheme, entry: AuthEntry, expiration: nat, ids: seq<nat>): Bytes
    requires GetCredentials(entry).Some?
  {
    env.hash(Hashed(scheme, DigestInputOf(env, network, entry, expiration, ids)))
  }

  lemma WithSignatureTwice(entry: AuthEntry, expiration: nat, signature: ScVal, expiration': nat, signature': ScVal)
    ensures WithSignature(WithSignature(entry, expiration, signature), expiration', signature')
         == WithSignature(entry, expiration', signature')
  {
  }

  /** The digest depends on neither the signature nor the old expiration. */
  lemma DigestIgnoresSignature(
    env: Env, network: string, scheme: Scheme, entry: AuthEntry, signature: ScVal,
    expiration: nat, expiration': nat, ids: seq<nat>)
    requires GetCredentials(entry).Some?
    ensures var other := WithSignature(entry, expiration', signature);
            && GetCredentials(other).Some?
            && Digest(env, network, scheme, other, expiration, ids)
            == Digest(env, network, scheme, entry, expiration, ids)
  {
    WithSignatureTwice(entry, expiration', signature, expiration, signature);
  }

  /**
   * What the digest commits to, field by field: under either scheme it hashes the
   * hash of the host's preimage with the given expiration and the rule ids, and
   * under `preimage-v1` the account.
   */
  ghost function ExpectedDigest(
    env: Env, network: string, schemeName: string, entry: AuthEntry, expiration: nat, ids: seq<nat>): Bytes
    requires GetCredentials(entry).Some?
  {
    var c := GetCredentials(entry).value;
    var address := if entry.credentials.AddressV2? then Some(c.address) else None;
    var payload := env.hash(
      env.envelope(HostPreimage(env.networkId(network), c.nonce, expiration, address, entry.root)));
    var idsValue := ScvVec(seq(|ids|, i requires 0 <= i < |ids| => ScvU32(ids[i])));
    if schemeName == "legacy-concat" then env.hash(payload + Xdr(idsValue))
    else
      env.hash(Xdr(ScvMap([
        ScMapEntry(ScvSymbol(ACCOUNT), ScvAddress(c.address)),
        ScMapEntry(ScvSymbol(RULE_IDS), idsValue),
        ScMapEntry(ScvSymbol(SIGNATURE_PAYLOAD), ScvBytes(payload))
      ])))
  }

  lemma DigestIsExpected(
    env: Env, network: string, schemeName: string, entry: AuthEntry, expiration: nat, ids: seq<nat>)
    requires GetCredentials(entry).Some?
    ensures ParseScheme(schemeName).Some? <==> schemeName == "legacy-concat" || schemeName == "preimage-v1"
    ensures ParseScheme(schemeName).Some? ==>
              Digest(env, network, ParseScheme(schemeName).value, entry, expiration, ids)
              == ExpectedDigest(env, network, schemeName, entry, expiration, ids)
  {
    assert WriteRuleIds(ids) == seq(|ids|, i requires 0 <= i < |ids| => ScvU32(ids[i]));
  }

  /**
   * The digest of an entry that already carries the expiration is over the
   * preimage of the entry as it stands.
   */
  lemma PayloadOfStampedEntry(env: Env, network: string, entry: AuthEntry)
    requires GetCredentials(entry).Some?
    ensures SignaturePayload(env, network, entry, GetCredentials(entry).value.expiration)
         == env.hash(env.envelope(HostPreimageOf(env, network, entry)))
  {
  }

  /** The entries authorize the same calls, with the same nonce and version, on one network. */
  predicate AuthorizeTheSame(env: Env, network: string, a: AuthEntry, network': string, b: AuthEntry)
    requires GetCredentials(a).Some? && GetCredentials(b).Some?
  {
    && env.networkId(network) == env.networkId(network')
    && GetCredentials(a).value.nonce == GetCredentials(b).value.nonce
    && (a.credentials.AddressV2? <==> b.credentials.AddressV2?)
    && a.root == b.root
  }

  /** The bytes that the two digests hash, or those of their preimages, are a collision. */
  ghost predicate DigestsCollide(
    env: Env,
    network: string, s: Scheme, a: AuthEntry, expiration: nat, ids: seq<nat>,
    network': string, t: Scheme, b: AuthEntry, expiration': nat, ids': seq<nat>)
    requires GetCredentials(a).Some? && GetCredentials(b).Some?
  {
    || Collides(
         env.hash,
         env.envelope(HostPreimageOf(env, network, WithSignature(a, expiration, ScvVoid))),
         env.envelope(HostPreimageOf(env, network', WithSignature(b, expiration', ScvVoid))))
    || Collides(
         env.hash,
         Hashed(s, DigestInputOf(env, network, a, expiration, ids)),
         Hashed(t, DigestInputOf(env, network', b, expiration', ids')))
  }

  /**
   * A digest binds what it is for: equal digests of two entries come from the same
   * scheme, rule ids, network, nonce, expiration and call tree, and from the same
   * address with V2 credentials or under `preimage-v1`; or they exhibit a collision.
   */
  lemma DigestBindsEntry(
    env: Env,
    network: string, s: Scheme, a: AuthEntry, expiration: nat, ids: seq<nat>,
    network': string, t: Scheme, b: AuthEntry, expiration': nat, ids': seq<nat>)
    requires IsEnv(env) && IsInjective(env.envelope)
    requires GetCredentials(a).Some? && IsAddress(GetCredentials(a).value.address) && AreU32(ids)
    requires GetCredentials(b).Some? && IsAddress(GetCredentials(b).value.address) && AreU32(ids')
    requires Digest(env, network, s, a, expiration, ids) == Digest(env, network', t, b, expiration', ids')
    ensures
      || DigestsCollide(env, network, s, a, expiration, ids, network', t, b, expiration', ids')
      || (&& s == t && ids == ids' && expiration == expiration'
          && AuthorizeTheSame(env, network, a, network', b)
          && (a.credentials.AddressV2? || s == PreimageV1 ==>
                GetCredentials(a).value.address == GetCredentials(b).value.address))
  {
    DigestBinds(
      env.hash, s, DigestInputOf(env, network, a, expiration, ids),
      t, DigestInputOf(env, network', b, expiration', ids'));
  }

  /**
   * Checking an entry that already carries the result of a check succeeds again
   * with the same expiration, as long as its payload has the requested rule ids.
   */
  lemma CheckAgain(env: Env, entry: AuthEntry, o: Options, signature: ScVal, payload: AuthPayload)
    requires Check(env, entry, o).Ok?
    requires Read(env.addresses, signature) == Ok(payload) && payload.ruleIds == o.ruleIds
    ensures var c := Check(env, entry, o).value;
            Check(env, WithSignature(entry, c.expiration, signature), o)
              == Ok(Checked(c.expiration, payload))
  {
    var c := GetCredentials(entry).value;
    var checked := Check(env, entry, o).value;
    NormalizeRoundsUp(RequestedExpiration(c, o));
    NormalizeRoundsUp(Finite(checked.expiration as real));
    assert checked.expiration as real != 0.0;
  }
}
