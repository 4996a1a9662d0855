/**
 * When `signAuthEntryWithSigners` signs: the conditions on an entry, the caller's
 * options and the signers, stated without the order in which they are checked.
 */
module SigningConditions {
  import opened Wrappers
  import opened ByteStrings
  import opened Decimals
  import opened JsNumbers
  import opened Signers
  import opened ScVals
  import opened AuthPayloads
  import opened PayloadReading
  import opened CanonicalPayloads
  import opened AuthDigests
  import opened AuthEntries
  import opened CoSigning

  // ------------------------------------------------------- refused mutations

  /** The functions that change what may act for a wallet, or act for it. */
  predicate IsAdministrative(name: string) {
    || name == "execute" || name == "upgrade"
    || name == "add_policy" || name == "remove_policy"
    || name == "add_signer" || name == "remove_signer" || name == "batch_add_signer"
    || name == "add_context_rule" || name == "remove_context_rule"
    || name == "update_context_rule_name" || name == "update_context_rule_valid_until"
  }

  /** The call has a printable target and is not an administrative call of the wallet. */
  predicate IsHarmless(codec: AddressCodec, call: AuthorizedFunction, wallet: string) {
    call.ContractFn? ==>
      && codec.format(call.contract).Some?
      && !(codec.format(call.contract) == Some(wallet) && IsAdministrative(call.name))
  }

  ghost predicate IsHarmlessTree(codec: AddressCodec, root: Invocation, wallet: string) {
    forall path :: Node(root, path).Some? ==> IsHarmless(codec, Node(root, path).value.call, wallet)
  }

  lemma {:induction false} TreeIsHarmlessAt(codec: AddressCodec, root: Invocation, wallet: string, path: seq<nat>)
    requires !HasUnsupportedTarget(codec, root) && !HasMutation(codec, root, wallet)
    requires Node(root, path).Some?
    ensures IsHarmless(codec, Node(root, path).value.call, wallet)
    decreases |path|
  {
    if path != [] {
      TreeIsHarmlessAt(codec, root.children[path[0]], wallet, path[1..]);
    }
  }

  lemma {:induction false} UnsupportedPath(codec: AddressCodec, root: Invocation) returns (path: seq<nat>)
    requires HasUnsupportedTarget(codec, root)
    ensures Node(root, path).Some?
    ensures Node(root, path).value.call.ContractFn? && codec.format(Node(root, path).value.call.contract).None?
    decreases root
  {
    if root.call.ContractFn? && codec.format(root.call.contract) == None {
      path := [];
    } else {
      var i: nat :| i < |root.children| && HasUnsupportedTarget(codec, root.children[i]);
      var rest := UnsupportedPath(codec, root.children[i]);
      path := [i] + rest;
      assert path[1..] == rest;
    }
  }

  /** An entry passes exactly when every call of its tree is harmless, at any depth. */
  lemma PassesIffEveryCallIsHarmless(codec: AddressCodec, entry: AuthEntry, wallet: string)
    ensures RefuseMutations(codec, entry, wallet) == None <==> IsHarmlessTree(codec, entry.root, wallet)
  {
    if RefuseMutations(codec, entry, wallet) == None {
      forall path | Node(entry.root, path).Some?
        ensures IsHarmless(codec, Node(entry.root, path).value.call, wallet)
      {
        TreeIsHarmlessAt(codec, entry.root, wallet, path);
      }
    } else if HasUnsupportedTarget(codec, entry.root) {
      var path := UnsupportedPath(codec, entry.root);
    } else {
      var path := MutationPath(codec, entry.root, wallet);
    }
  }

  /** Nothing that is signed calls an administrative function of the signing wallet. */
  lemma SignedEntriesAreHarmless(
    env: Env, entry: AuthEntry, signers: seq<LocalSigner>, o: Options, path: seq<nat>)
    requires Sign(env, entry, signers, o).Ok? && Node(entry.root, path).Some?
    ensures GetCredentials(entry).Some?
    ensures env.addresses.format(GetCredentials(entry).value.address).Some?
    ensures IsHarmless(
              env.addresses, Node(entry.root, path).value.call,
              env.addresses.format(GetCredentials(entry).value.address).value)
  {
    var wallet := env.addresses.format(GetCredentials(entry).value.address).value;
    TreeIsHarmlessAt(env.addresses, entry.root, wallet, path);
  }

  // ------------------------------------------------------ what may be signed

  /** The ledger for which a call signs: the requested one, rounded up, or that of the entry. */
  predicate IsLedgerFor(requested: Option<JsNumber>, present: nat, ledger: nat) {
    && ledger < U32_LIMIT
    && match requested
       case None => ledger == present != 0
       case Some(n) => n.Finite? && n.value > 0.0 && n.value <= ledger as real < n.value + 1.0
  }

  /** The entry may be signed for `ledger`, and carries `payload` so far. */
  ghost predicate MaySign(env: Env, entry: AuthEntry, o: Options, ledger: nat, payload: AuthPayload) {
    && (entry.credentials.AddressV1? || entry.credentials.AddressV2?)
    && var c := GetCredentials(entry).value;
       && env.addresses.format(c.address).Some?
       && IsHarmlessTree(env.addresses, entry.root, env.addresses.format(c.address).value)
       && IsLedgerFor(o.expiration, c.expiration, ledger)
       && Read(env.addresses, c.signature) == Ok(payload)
       && (payload.signers != [] ==> ledger == c.expiration)
       && o.ruleIds != []
       && (payload.ruleIds != [] ==> payload.ruleIds == o.ruleIds)
  }

  lemma LedgerIff(c: AddressCredentials, o: Options, ledger: nat)
    ensures IsLedgerFor(o.expiration, c.expiration, ledger)
       <==> !IsFalsy(RequestedExpiration(c, o)) && NormalizeExpiration(RequestedExpiration(c, o)) == Ok(ledger)
  {
    NormalizeRoundsUp(RequestedExpiration(c, o));
  }

  /** The checks pass exactly on such an entry, and with this result. */
  lemma ChecksPassIff(env: Env, entry: AuthEntry, o: Options, ledger: nat, payload: AuthPayload)
    ensures Check(env, entry, o) == Ok(Checked(ledger, payload)) <==> MaySign(env, entry, o, ledger, payload)
  {
    if GetCredentials(entry).Some? && env.addresses.format(GetCredentials(entry).value.address).Some? {
      var c := GetCredentials(entry).value;
      PassesIffEveryCallIsHarmless(env.addresses, entry, env.addresses.format(c.address).value);
      PayloadChecksPassIff(env, c, o, ledger, payload);
    }
  }

  lemma PayloadChecksPassIff(env: Env, c: AddressCredentials, o: Options, ledger: nat, payload: AuthPayload)
    ensures CheckPayload(env, c, o) == Ok(Checked(ledger, payload)) <==>
              && IsLedgerFor(o.expiration, c.expiration, ledger)
              && Read(env.addresses, c.signature) == Ok(payload)
              && (payload.signers != [] ==> ledger == c.expiration)
              && o.ruleIds != []
              && (payload.ruleIds != [] ==> payload.ruleIds == o.ruleIds)
  {
    LedgerIff(c, o, ledger);
    if payload.ruleIds != [] && Join(payload.ruleIds) == Join(o.ruleIds) {
      JoinInjective(payload.ruleIds, o.ruleIds);
    }
  }

  lemma {:induction false} CollectedIff(signers: seq<LocalSigner>, digest: Bytes)
    ensures Collected(signers, digest).Some? <==> forall i :: 0 <= i < |signers| ==> signers[i].sign(digest).Some?
    decreases |signers|
  {
    if signers != [] {
      var front := signers[..|signers| - 1];
      CollectedIff(front, digest);
      assert forall i :: 0 <= i < |front| ==> front[i] == signers[i];
    }
  }

  /** Every signer signs the digest, and XDR can carry the signatures. */
  ghost predicate CanFinish(
    env: Env, signers: seq<LocalSigner>, digest: Bytes, ids: seq<nat>, before: map<Signer, Bytes>)
  {
    && (forall i :: 0 <= i < |signers| ==> signers[i].sign(digest).Some?)
    && Collected(signers, digest).Some?
    && CanWrite(env.addresses, ids, before + Collected(signers, digest).value)
  }

  lemma SignsOnceChecked(
    env: Env, entry: AuthEntry, signers: seq<LocalSigner>, o: Options, ledger: nat, payload: AuthPayload)
    requires HasNoDuplicates(env, entry) && Check(env, entry, o) == Ok(Checked(ledger, payload))
    requires signers != [] && ParseScheme(o.scheme).Some? && AreU32(o.ruleIds)
    ensures GetCredentials(entry).Some?
    ensures Sign(env, entry, signers, o).Ok? <==>
              CanFinish(
                env, signers, ExpectedDigest(env, o.network, o.scheme, entry, ledger, AsU32(o.ruleIds)),
                AsU32(o.ruleIds), Signatures(payload.signers))
    ensures Sign(env, entry, signers, o).Ok? ==>
              && GetCredentials(Sign(env, entry, signers, o).value).Some?
              && GetCredentials(Sign(env, entry, signers, o).value).value.expiration == ledger
  {
    var ids, before := AsU32(o.ruleIds), Signatures(payload.signers);
    var digest := Digest(env, o.network, ParseScheme(o.scheme).value, entry, ledger, ids);
    CheckedPayload(env, entry, o);
    SignOutcome(env, entry, signers, o, entry, ledger, digest, before);
    CollectedIff(signers, digest);
    DigestIsExpected(env, o.network, o.scheme, entry, ledger, ids);
    if Sign(env, entry, signers, o).Ok? {
      var signed, after := Sign(env, entry, signers, o).value, before + Collected(signers, digest).value;
      var written: AuthPayload :| IsWrittenAs(env, entry, ledger, ids, after, signed, written);
      WrittenCredentials(entry, ledger, Write(env.addresses, written).value);
    }
  }

  /** The conditions on the arguments and the entry, and on what the signers then do. */
  ghost predicate WillSign(
    env: Env, entry: AuthEntry, signers: seq<LocalSigner>, o: Options, ledger: nat, payload: AuthPayload)
  {
    && signers != []
    && (o.scheme == "legacy-concat" || o.scheme == "preimage-v1")
    && AreU32(o.ruleIds)
    && MaySign(env, entry, o, ledger, payload)
    && CanFinish(
         env, signers, ExpectedDigest(env, o.network, o.scheme, entry, ledger, AsU32(o.ruleIds)),
         AsU32(o.ruleIds), Signatures(payload.signers))
  }

  /**
   * A call signs exactly when its conditions are met, and then for that ledger. The
   * one on the ledger holds of every positive request in the u32 range.
   */
  lemma SignsIff(env: Env, entry: AuthEntry, signers: seq<LocalSigner>, o: Options)
    requires HasNoDuplicates(env, entry)
    ensures Sign(env, entry, signers, o).Ok?
       <==> exists ledger, payload :: WillSign(env, entry, signers, o, ledger, payload)
    ensures forall ledger, payload :: WillSign(env, entry, signers, o, ledger, payload) ==>
              && GetCredentials(Sign(env, entry, signers, o).value).Some?
              && GetCredentials(Sign(env, entry, signers, o).value).value.expiration == ledger
  {
    forall ledger, payload | WillSign(env, entry, signers, o, ledger, payload)
      ensures Sign(env, entry, signers, o).Ok?
      ensures GetCredentials(Sign(env, entry, signers, o).value).Some?
      ensures GetCredentials(Sign(env, entry, signers, o).value).value.expiration == ledger
    {
      ChecksPassIff(env, entry, o, ledger, payload);
      SignsOnceChecked(env, entry, signers, o, ledger, payload);
    }
    if Sign(env, entry, signers, o).Ok? {
      var checked := Check(env, entry, o).value;
      ChecksPassIff(env, entry, o, checked.expiration, checked.payload);
      SignsOnceChecked(env, entry, signers, o, checked.expiration, checked.payload);
      DigestIsExpected(env, o.network, o.scheme, entry, checked.expiration, AsU32(o.ruleIds));
      assert WillSign(env, entry, signers, o, checked.expiration, checked.payload);
    }
  }

  /**
   * The signed entry has the requested expiration, rounded up to a ledger; where
   * none was requested, the one that it had.
   */
  lemma SignedForRequestedLedger(env: Env, entry: AuthEntry, signers: seq<LocalSigner>, o: Options)
    requires Sign(env, entry, signers, o).Ok?
    ensures GetCredentials(entry).Some? && GetCredentials(Sign(env, entry, signers, o).value).Some?
    ensures IsLedgerFor(
              o.expiration, GetCredentials(entry).value.expiration,
              GetCredentials(Sign(env, entry, signers, o).value).value.expiration)
  {
    var checked := Check(env, entry, o).value;
    LedgerIff(GetCredentials(entry).value, o, checked.expiration);
    var digest := Digest(
      env, o.network, ParseScheme(o.scheme).value, entry, checked.expiration, AsU32(o.ruleIds));
    var payload := AuthPayload(AsU32(o.ruleIds), SignAll(checked.payload.signers, signers, digest).value);
    assert Sign(env, entry, signers, o) == Finish(env, entry, checked.expiration, payload);
    WrittenCredentials(entry, checked.expiration, Write(env.addresses, payload).value);
  }

  // ---------------------------------------------------------------- refusals

  /** The entry cannot be signed because of what the error says. */
  ghost predicate IsCause(env: Env, entry: AuthEntry, signers: seq<LocalSigner>, o: Options, error: SignError) {
    match error
    case NoSigners => signers == []
    case UnknownScheme => o.scheme != "legacy-concat" && o.scheme != "preimage-v1"
    case BadInput(_) => false
    case DelegatesUnsupported => entry.credentials.AddressWithDelegates?
    case NotAddressCredentials => entry.credentials.SourceAccount?
    case RuleIdsRequired => o.ruleIds == []
    case RuleIdsNotU32 => !AreU32(o.ruleIds)
    case _ => GetCredentials(entry).Some? && IsCauseIn(env, entry, GetCredentials(entry).value, signers, o, error)
  }

  ghost predicate IsCauseIn(
    env: Env, entry: AuthEntry, c: AddressCredentials, signers: seq<LocalSigner>, o: Options, error: SignError)
    requires GetCredentials(entry) == Some(c)
  {
    match error
    case UnsupportedCredentialAddress => env.addresses.format(c.address).None?
    case UnsupportedTarget => exists path :: IsUnsupportedAt(env.addresses, entry.root, path)
    case WalletMutation => exists path :: IsMutationAt(env.addresses, entry.root, c.address, path)
    case ExpirationRequired =>
      if o.expiration.Some? then o.expiration.value == NaN || o.expiration.value == Finite(0.0)
      else c.expiration == 0
    case ExpirationNotFinite => o.expiration.Some? && o.expiration.value.Infinite?
    case ExpirationNotU32 =>
      if o.expiration.Some?
      then o.expiration.value.Finite? && !(0.0 <= o.expiration.value.value <= (U32_LIMIT - 1) as real)
      else c.expiration >= U32_LIMIT
    case BadPayload(_) =>
      !c.signature.ScvVoid? && (c.signature.ScvMap? ==> !AreFields(env.addresses, c.signature.entries))
    case ExpirationMismatch =>
      && PayloadOf(env, entry).Some? && PayloadOf(env, entry).value.signers != []
      && !IsLedgerFor(o.expiration, c.expiration, c.expiration)
    case RuleIdsMismatch =>
      && PayloadOf(env, entry).Some? && PayloadOf(env, entry).value.ruleIds != []
      && PayloadOf(env, entry).value.ruleIds != o.ruleIds
    case SignerFailed =>
      AreU32(o.ruleIds) && exists ledger ::
        && IsLedgerFor(o.expiration, c.expiration, ledger)
        && SomeoneFails(signers, ExpectedDigest(env, o.network, o.scheme, entry, ledger, AsU32(o.ruleIds)))
    case PayloadNotWritable =>
      AreU32(o.ruleIds) && exists ledger, payload ::
        && MaySign(env, entry, o, ledger, payload)
        && (NoDuplicates(payload.signers) ==>
              !CanFinish(
                env, signers, ExpectedDigest(env, o.network, o.scheme, entry, ledger, AsU32(o.ruleIds)),
                AsU32(o.ruleIds), Signatures(payload.signers)))
    case _ => false
  }

  predicate SomeoneFails(signers: seq<LocalSigner>, digest: Bytes) {
    exists i :: 0 <= i < |signers| && signers[i].sign(digest).None?
  }

  ghost predicate IsUnsupportedAt(codec: AddressCodec, root: Invocation, path: seq<nat>) {
    && Node(root, path).Some? && Node(root, path).value.call.ContractFn?
    && codec.format(Node(root, path).value.call.contract).None?
  }

  ghost predicate IsMutationAt(codec: AddressCodec, root: Invocation, wallet: ScAddress, path: seq<nat>) {
    && Node(root, path).Some? && Node(root, path).value.call.ContractFn?
    && codec.format(Node(root, path).value.call.contract) == codec.format(wallet)
    && IsAdministrative(Node(root, path).value.call.name)
  }

  lemma RefusalIsTrue(env: Env, entry: AuthEntry, c: AddressCredentials, signers: seq<LocalSigner>, o: Options)
    requires GetCredentials(entry) == Some(c) && env.addresses.format(c.address).Some?
    requires RefuseMutations(env.addresses, entry, env.addresses.format(c.address).value).Some?
    ensures IsCauseIn(
              env, entry, c, signers, o,
              RefuseMutations(env.addresses, entry, env.addresses.format(c.address).value).value)
  {
    if HasUnsupportedTarget(env.addresses, entry.root) {
      var path := UnsupportedPath(env.addresses, entry.root);
      assert IsUnsupportedAt(env.addresses, entry.root, path);
    } else {
      var path := MutationPath(env.addresses, entry.root, env.addresses.format(c.address).value);
      assert IsMutationAt(env.addresses, entry.root, c.address, path);
    }
  }

  lemma PayloadRefusalIsTrue(env: Env, entry: AuthEntry, c: AddressCredentials, signers: seq<LocalSigner>, o: Options)
    requires GetCredentials(entry) == Some(c) && CheckPayload(env, c, o).Err?
    ensures IsCause(env, entry, signers, o, CheckPayload(env, c, o).error)
  {
    ReadsIff(env.addresses, c.signature);
    LedgerIff(c, o, c.expiration);
    NormalizeRoundsUp(RequestedExpiration(c, o));
  }

  lemma CheckRefusalIsTrue(env: Env, entry: AuthEntry, signers: seq<LocalSigner>, o: Options)
    requires Check(env, entry, o).Err?
    ensures IsCause(env, entry, signers, o, Check(env, entry, o).error)
  {
    if GetCredentials(entry).Some? && env.addresses.format(GetCredentials(entry).value.address).Some? {
      var c := GetCredentials(entry).value;
      if RefuseMutations(env.addresses, entry, env.addresses.format(c.address).value).Some? {
        RefusalIsTrue(env, entry, c, signers, o);
      } else {
        PayloadRefusalIsTrue(env, entry, c, signers, o);
      }
    }
  }

  lemma {:induction false} FailureIsSomeones(m: SignatureMap, signers: seq<LocalSigner>, digest: Bytes)
    requires SignAll(m, signers, digest).None?
    ensures SomeoneFails(signers, digest)
    decreases |signers|
  {
    if signers[0].sign(digest).Some? {
      var owner := SignerObject(signers[0].handle, signers[0].signer);
      FailureIsSomeones(Upsert(m, owner, signers[0].sign(digest).value), signers[1..], digest);
      var i :| 0 <= i < |signers[1..]| && signers[1..][i].sign(digest).None?;
      assert signers[i + 1].sign(digest).None?;
    }
  }

  lemma FinishRefusalIsTrue(
    env: Env, entry: AuthEntry, signers: seq<LocalSigner>, o: Options, ledger: nat, payload: AuthPayload)
    requires signers != [] && ParseScheme(o.scheme).Some? && AreU32(o.ruleIds)
    requires Check(env, entry, o) == Ok(Checked(ledger, payload)) && Sign(env, entry, signers, o).Err?
    ensures IsCause(env, entry, signers, o, Sign(env, entry, signers, o).error)
  {
    ChecksPassIff(env, entry, o, ledger, payload);
    CheckedPayload(env, entry, o);
    DigestIsExpected(env, o.network, o.scheme, entry, ledger, AsU32(o.ruleIds));
    var digest := ExpectedDigest(env, o.network, o.scheme, entry, ledger, AsU32(o.ruleIds));
    if SignAll(payload.signers, signers, digest).None? {
      FailureIsSomeones(payload.signers, signers, digest);
    } else if NoDuplicates(payload.signers) {
      SignsOnceChecked(env, entry, signers, o, ledger, payload);
    }
  }

  /** A call that fails names a reason that is true of the entry, the options or the signers. */
  lemma ErrorsAreTrue(env: Env, entry: AuthEntry, signers: seq<LocalSigner>, o: Options)
    requires Sign(env, entry, signers, o).Err?
    ensures IsCause(env, entry, signers, o, Sign(env, entry, signers, o).error)
  {
    if signers != [] && ParseScheme(o.scheme).Some? {
      if Check(env, entry, o).Err? {
        CheckRefusalIsTrue(env, entry, signers, o);
      } else if AreU32(o.ruleIds) {
        var checked := Check(env, entry, o).value;
        FinishRefusalIsTrue(env, entry, signers, o, checked.expiration, checked.payload);
      }
    }
  }
}
