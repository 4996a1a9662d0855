/**
 * `signAuthEntryWithSigners`: several parties sign one entry in turn. What a
 * call does to an entry, and that neither the order of calls nor how they are
 * grouped matters.
 */
module CoSigning {
  import opened Wrappers
  import opened ByteStrings
  import opened Signers
  import opened ScVals
  import opened AuthPayloads
  import opened CanonicalPayloads
  import opened AuthDigests
  import opened AuthEntries

  /** An AuthDigestSigner: `sign` is None where it throws. */
  datatype LocalSigner = LocalSigner(handle: nat, signer: Signer, sign: Bytes -> Option<Bytes>)

  /** The loop over the signers: None if one of them throws. */
  function SignAll(m: SignatureMap, signers: seq<LocalSigner>, digest: Bytes): Option<SignatureMap>
    decreases |signers|
  {
    if signers == [] then Some(m)
    else
      match signers[0].sign(digest)
      case None => None
      case Some(signature) =>
        var owner := SignerObject(signers[0].handle, signers[0].signer);
        SignAll(Upsert(m, owner, signature), signers[1..], digest)
  }

  /** Store the collected signatures in the entry. */
  function Finish(env: Env, entry: AuthEntry, expiration: nat, payload: AuthPayload): Result<AuthEntry, SignError> {
    match Write(env.addresses, payload)
    case None => Err(PayloadNotWritable)
    case Some(signature) => Ok(WithSignature(entry, expiration, signature))
  }

  /** The signing of a decoded entry, after the checks of the arguments. */
  function SignDecoded(env: Env, entry: AuthEntry, signers: seq<LocalSigner>, scheme: Scheme, o: Options)
    : Result<AuthEntry, SignError>
  {
    match Check(env, entry, o)
    case Err(e) => Err(e)
    case Ok(checked) =>
      if !AreU32(o.ruleIds) then Err(RuleIdsNotU32)
      else
        var ids := AsU32(o.ruleIds);
        var digest := Digest(env, o.network, scheme, entry, checked.expiration, ids);
        match SignAll(checked.payload.signers, signers, digest)
        case None => Err(SignerFailed)
        case Some(m) => Finish(env, entry, checked.expiration, AuthPayload(ids, m))
  }

  function Sign(env: Env, entry: AuthEntry, signers: seq<LocalSigner>, o: Options): Result<AuthEntry, SignError> {
    if signers == [] then Err(NoSigners)
    else
      match ParseScheme(o.scheme)
      case None => Err(UnknownScheme)
      case Some(scheme) => SignDecoded(env, entry, signers, scheme, o)
  }

  // ------------------------------------------------- what one call collects

  /** The signature each signer of a list ends up with; a later one replaces an earlier one. */
  function Collected(signers: seq<LocalSigner>, digest: Bytes): Option<map<Signer, Bytes>> {
    if signers == [] then Some(map[])
    else
      var n := |signers| - 1;
      match (Collected(signers[..n], digest), signers[n].sign(digest))
      case (Some(m), Some(signature)) => Some(m[signers[n].signer := signature])
      case _ => None
  }

  lemma {:induction false} SignAllConcat(m: SignatureMap, xs: seq<LocalSigner>, ys: seq<LocalSigner>, digest: Bytes)
    ensures SignAll(m, xs + ys, digest)
         == match SignAll(m, xs, digest) case None => None case Some(n) => SignAll(n, ys, digest)
    decreases |xs|
  {
    if xs == [] {
      assert xs + ys == ys;
    } else if xs[0].sign(digest).Some? {
      var owner := SignerObject(xs[0].handle, xs[0].signer);
      assert (xs + ys)[1..] == xs[1..] + ys;
      SignAllConcat(Upsert(m, owner, xs[0].sign(digest).value), xs[1..], ys, digest);
    }
  }

  lemma {:induction false} CollectedConcat(xs: seq<LocalSigner>, ys: seq<LocalSigner>, digest: Bytes)
    ensures Collected(xs + ys, digest)
         == match (Collected(xs, digest), Collected(ys, digest))
            case (Some(a), Some(b)) => Some(a + b)
            case _ => None
    decreases |ys|
  {
    if ys == [] {
      assert xs + ys == xs;
      assert Collected(xs, digest).Some? ==> Collected(xs, digest).value + map[] == Collected(xs, digest).value;
    } else {
      var n := |ys| - 1;
      var all := xs + ys;
      assert all[..|all| - 1] == xs + ys[..n] && all[|all| - 1] == ys[n];
      CollectedConcat(xs, ys[..n], digest);
      match (Collected(xs, digest), Collected(ys[..n], digest), ys[n].sign(digest))
      case (Some(a), Some(b), Some(signature)) =>
        assert a + b[ys[n].signer := signature] == (a + b)[ys[n].signer := signature];
      case _ =>
    }
  }

  /** The signing loop is a map update, whatever the objects and their order. */
  lemma {:induction false} SignAllMeaning(m: SignatureMap, signers: seq<LocalSigner>, digest: Bytes)
    requires NoDuplicates(m)
    ensures SignAll(m, signers, digest).Some? <==> Collected(signers, digest).Some?
    ensures SignAll(m, signers, digest).Some? ==>
              && NoDuplicates(SignAll(m, signers, digest).value)
              && Signatures(SignAll(m, signers, digest).value)
              == Signatures(m) + Collected(signers, digest).value
    decreases |signers|
  {
    if signers != [] {
      var n := |signers| - 1;
      var front, last := signers[..n], signers[n];
      SignAllMeaning(m, front, digest);
      assert signers == front + [last];
      SignAllConcat(m, front, [last], digest);
      if SignAll(m, front, digest).Some? && last.sign(digest).Some? {
        var before := SignAll(m, front, digest).value;
        UpsertMeaning(before, SignerObject(last.handle, last.signer), last.sign(digest).value);
        assert SignAll(before, [last], digest)
            == Some(Upsert(before, SignerObject(last.handle, last.signer), last.sign(digest).value));
      }
    }
  }

  // ------------------------------------------------------ what one call does

  /**
   * An entry on which a call with options `o` gets as far as the signers: it is
   * `base` up to expiration and signature, the call will write `expiration`, the
   * signers will sign `digest`, and the payload holds `before`, one signature
   * for each signer.
   */
  ghost predicate Ready(
    env: Env, entry: AuthEntry, o: Options,
    base: AuthEntry, expiration: nat, digest: Bytes, before: map<Signer, Bytes>)
  {
    && ParseScheme(o.scheme).Some?
    && AreU32(o.ruleIds)
    && Check(env, entry, o).Ok?
    && GetCredentials(base).Some?
    && Check(env, entry, o).value.expiration == expiration
    && NoDuplicates(Check(env, entry, o).value.payload.signers)
    && Signatures(Check(env, entry, o).value.payload.signers) == before
    && digest == Digest(env, o.network, ParseScheme(o.scheme).value, base, expiration, AsU32(o.ruleIds))
    && (entry == base || entry == WithSignature(base, expiration, GetCredentials(entry).value.signature))
  }

  /** `base` with this expiration and the canonical payload for these signatures. */
  ghost predicate IsWritten(
    env: Env, base: AuthEntry, expiration: nat, ids: seq<nat>, signatures: map<Signer, Bytes>, result: AuthEntry)
  {
    exists payload: AuthPayload :: IsWrittenAs(env, base, expiration, ids, signatures, result, payload)
  }

  ghost predicate IsWrittenAs(
    env: Env, base: AuthEntry, expiration: nat, ids: seq<nat>, signatures: map<Signer, Bytes>, result: AuthEntry,
    payload: AuthPayload)
  {
    && payload.ruleIds == ids
    && NoDuplicates(payload.signers)
    && Signatures(payload.signers) == signatures
    && Write(env.addresses, payload).Some?
    && result == WithSignature(base, expiration, Write(env.addresses, payload).value)
  }

  /** The outcome of a call that collects `collected`, given the signatures before it. */
  ghost predicate IsOutcome(
    env: Env, base: AuthEntry, expiration: nat, ids: seq<nat>, before: map<Signer, Bytes>,
    collected: Option<map<Signer, Bytes>>, result: Result<AuthEntry, SignError>)
  {
    && (result.Ok? <==> collected.Some? && CanWrite(env.addresses, ids, before + collected.value))
    && (result.Ok? ==> IsWritten(env, base, expiration, ids, before + collected.value, result.value))
  }

  lemma WrittenIsUnique(
    env: Env, base: AuthEntry, expiration: nat, ids: seq<nat>, signatures: map<Signer, Bytes>,
    a: AuthEntry, b: AuthEntry)
    requires IsAddressCodec(env.addresses)
    requires IsWritten(env, base, expiration, ids, signatures, a)
    requires IsWritten(env, base, expiration, ids, signatures, b)
    ensures a == b
  {
    var p: AuthPayload :| IsWrittenAs(env, base, expiration, ids, signatures, a, p);
    var q: AuthPayload :| IsWrittenAs(env, base, expiration, ids, signatures, b, q);
    WriteIsCanonical(env.addresses, p, q);
  }

  /** Outcomes that leave the same signatures succeed together, with one result. */
  lemma OutcomesAgree(
    env: Env, base: AuthEntry, expiration: nat, ids: seq<nat>,
    before: map<Signer, Bytes>, collected: Option<map<Signer, Bytes>>, result: Result<AuthEntry, SignError>,
    before': map<Signer, Bytes>, collected': Option<map<Signer, Bytes>>, result': Result<AuthEntry, SignError>)
    requires IsAddressCodec(env.addresses)
    requires IsOutcome(env, base, expiration, ids, before, collected, result)
    requires IsOutcome(env, base, expiration, ids, before', collected', result')
    requires collected.Some? <==> collected'.Some?
    requires collected.Some? ==> before + collected.value == before' + collected'.value
    ensures result.Ok? <==> result'.Ok?
    ensures result.Ok? ==> result == result'
  {
    if result.Ok? {
      WrittenIsUnique(env, base, expiration, ids, before + collected.value, result.value, result'.value);
    }
  }

  lemma DigestOfReady(
    env: Env, entry: AuthEntry, o: Options,
    base: AuthEntry, expiration: nat, digest: Bytes, before: map<Signer, Bytes>)
    requires Ready(env, entry, o, base, expiration, digest, before)
    ensures GetCredentials(entry).Some?
    ensures digest == Digest(env, o.network, ParseScheme(o.scheme).value, entry, expiration, AsU32(o.ruleIds))
    ensures forall signature ::
              WithSignature(entry, expiration, signature) == WithSignature(base, expiration, signature)
  {
    if entry != base {
      var signature := GetCredentials(entry).value.signature;
      DigestIgnoresSignature(
        env, o.network, ParseScheme(o.scheme).value, base, signature, expiration, expiration, AsU32(o.ruleIds));
    }
  }

  /**
   * The outcome of a call: it succeeds exactly when every signer signs and the
   * signatures can be written, and then returns `base` with the old signatures
   * updated by the collected ones.
   */
  lemma SignOutcome(
    env: Env, entry: AuthEntry, signers: seq<LocalSigner>, o: Options,
    base: AuthEntry, expiration: nat, digest: Bytes, before: map<Signer, Bytes>)
    requires Ready(env, entry, o, base, expiration, digest, before) && signers != []
    ensures IsOutcome(
              env, base, expiration, AsU32(o.ruleIds), before, Collected(signers, digest), Sign(env, entry, signers, o))
  {
    var m := Check(env, entry, o).value.payload.signers;
    DigestOfReady(env, entry, o, base, expiration, digest, before);
    SignAllMeaning(m, signers, digest);
    if Collected(signers, digest).Some? {
      var payload := AuthPayload(AsU32(o.ruleIds), SignAll(m, signers, digest).value);
      WritesIff(env.addresses, payload);
      var result := Sign(env, entry, signers, o);
      assert result == Finish(env, entry, expiration, payload);
      if result.Ok? {
        assert IsWrittenAs(
            env, base, expiration, AsU32(o.ruleIds), before + Collected(signers, digest).value, result.value, payload);
      }
    }
  }

  lemma WrittenCredentials(base: AuthEntry, expiration: nat, signature: ScVal)
    requires GetCredentials(base).Some?
    ensures GetCredentials(WithSignature(base, expiration, signature))
         == Some(GetCredentials(base).value.(expiration := expiration, signature := signature))
  {
  }

  /** A written entry is ready for another call with the same options. */
  lemma WrittenIsReady(
    env: Env, entry: AuthEntry, o: Options,
    base: AuthEntry, expiration: nat, digest: Bytes, before: map<Signer, Bytes>,
    signatures: map<Signer, Bytes>, written: AuthEntry)
    requires IsAddressCodec(env.addresses)
    requires Ready(env, entry, o, base, expiration, digest, before)
    requires IsWritten(env, base, expiration, AsU32(o.ruleIds), signatures, written)
    ensures Ready(env, written, o, base, expiration, digest, signatures)
  {
    var payload: AuthPayload :| IsWrittenAs(env, base, expiration, AsU32(o.ruleIds), signatures, written, payload);
    var signature := Write(env.addresses, payload).value;
    var back := ReadAfterWrite(env.addresses, payload);
    DigestOfReady(env, entry, o, base, expiration, digest, before);
    WrittenCredentials(base, expiration, signature);
    CheckAgain(env, entry, o, signature, back);
  }

  // ------------------------------------------------------------- assumptions

  /** `readAuthPayload` on the signature of an entry, where it has one. */
  function PayloadOf(env: Env, entry: AuthEntry): Option<AuthPayload> {
    match GetCredentials(entry)
    case None => None
    case Some(c) =>
      match Read(env.addresses, c.signature)
      case Err(_) => None
      case Ok(payload) => Some(payload)
  }

  /** A readable payload lists no signer twice. */
  ghost predicate HasNoDuplicates(env: Env, entry: AuthEntry) {
    PayloadOf(env, entry).Some? ==> NoDuplicates(PayloadOf(env, entry).value.signers)
  }

  lemma SignedIsReady(env: Env, entry: AuthEntry, signers: seq<LocalSigner>, o: Options)
    returns (expiration: nat, digest: Bytes, before: map<Signer, Bytes>)
    requires HasNoDuplicates(env, entry) && Sign(env, entry, signers, o).Ok?
    ensures signers != [] && Ready(env, entry, o, entry, expiration, digest, before)
  {
    var checked := Check(env, entry, o).value;
    expiration := checked.expiration;
    before := Signatures(checked.payload.signers);
    digest := Digest(env, o.network, ParseScheme(o.scheme).value, entry, expiration, AsU32(o.ruleIds));
    CheckedPayload(env, entry, o);
  }

  lemma CheckedPayload(env: Env, entry: AuthEntry, o: Options)
    requires Check(env, entry, o).Ok?
    ensures PayloadOf(env, entry) == Some(Check(env, entry, o).value.payload)
  {
  }

  // ------------------------------------------------------- order and repeats

  /** One party signs, and another signs the result. */
  function SignTwice(env: Env, entry: AuthEntry, xs: seq<LocalSigner>, ys: seq<LocalSigner>, o: Options)
    : Result<AuthEntry, SignError>
  {
    match Sign(env, entry, xs, o)
    case Err(e) => Err(e)
    case Ok(first) => Sign(env, first, ys, o)
  }

  /** No signer is in both lists. */
  predicate AreDisjoint(xs: seq<LocalSigner>, ys: seq<LocalSigner>) {
    forall i, j :: 0 <= i < |xs| && 0 <= j < |ys| ==> xs[i].signer != ys[j].signer
  }

  /** The signature of the entry is one that XDR carries, as that of every decoded entry is. */
  predicate IsCarried(entry: AuthEntry) {
    GetCredentials(entry).Some? ==> IsEncodable(GetCredentials(entry).value.signature)
  }

  /** A successful call returns an entry that XDR carries. */
  lemma SignedIsCarried(env: Env, entry: AuthEntry, signers: seq<LocalSigner>, o: Options)
    requires Sign(env, entry, signers, o).Ok?
    ensures IsCarried(Sign(env, entry, signers, o).value)
  {
    var checked := Check(env, entry, o).value;
    var digest := Digest(
      env, o.network, ParseScheme(o.scheme).value, entry, checked.expiration, AsU32(o.ruleIds));
    var payload := AuthPayload(AsU32(o.ruleIds), SignAll(checked.payload.signers, signers, digest).value);
    assert Sign(env, entry, signers, o) == Finish(env, entry, checked.expiration, payload);
    WrittenCredentials(entry, checked.expiration, Write(env.addresses, payload).value);
  }

  lemma {:induction false} CollectedOnlyThese(signers: seq<LocalSigner>, digest: Bytes, signer: Signer)
    requires Collected(signers, digest).Some? && signer in Collected(signers, digest).value
    ensures exists i :: 0 <= i < |signers| && signers[i].signer == signer
    decreases |signers|
  {
    var n := |signers| - 1;
    if signers[n].signer != signer {
      CollectedOnlyThese(signers[..n], digest, signer);
      var i :| 0 <= i < n && signers[..n][i].signer == signer;
      assert signers[i].signer == signer;
    }
  }

  lemma KeysSize(small: map<Signer, Bytes>, large: map<Signer, Bytes>)
    requires small.Keys <= large.Keys
    ensures |small| <= |large|
  {
    assert large.Keys == small.Keys + (large.Keys - small.Keys);
    assert |small| == |small.Keys| && |large| == |large.Keys|;
  }

  /** If all signatures can be written, so can those without one party's. */
  lemma CanWritePart(
    codec: AddressCodec, ids: seq<nat>, before: map<Signer, Bytes>, a: map<Signer, Bytes>, b: map<Signer, Bytes>)
    requires CanWrite(codec, ids, before + (a + b)) && a.Keys !! b.Keys
    requires AllCanWrite(codec, before)
    ensures CanWrite(codec, ids, before + a)
  {
    KeysSize(before + a, before + (a + b));
    forall s | s in before + a
      ensures CanWriteSignature(codec, s, (before + a)[s])
    {
      if s in a {
        assert (before + (a + b))[s] == a[s];
      }
    }
  }

  ghost predicate AllCanWrite(codec: AddressCodec, signatures: map<Signer, Bytes>) {
    forall s :: s in signatures ==> CanWriteSignature(codec, s, signatures[s])
  }

  lemma OldSignaturesCarried(env: Env, entry: AuthEntry, o: Options)
    requires IsAddressCodec(env.addresses) && HasNoDuplicates(env, entry) && IsCarried(entry)
    requires Check(env, entry, o).Ok?
    ensures AllCanWrite(env.addresses, Signatures(Check(env, entry, o).value.payload.signers))
  {
    CheckedPayload(env, entry, o);
    var before := Signatures(Check(env, entry, o).value.payload.signers);
    forall s | s in before
      ensures CanWriteSignature(env.addresses, s, before[s])
    {
      ReadIsCarried(env.addresses, GetCredentials(entry).value.signature, s);
    }
  }

  lemma DisjointCollected(xs: seq<LocalSigner>, ys: seq<LocalSigner>, digest: Bytes)
    requires AreDisjoint(xs, ys) && Collected(xs, digest).Some? && Collected(ys, digest).Some?
    ensures Collected(xs, digest).value.Keys !! Collected(ys, digest).value.Keys
  {
    var a, b := Collected(xs, digest).value, Collected(ys, digest).value;
    forall s | s in a
      ensures s !in b
    {
      CollectedOnlyThese(xs, digest, s);
      if s in b {
        CollectedOnlyThese(ys, digest, s);
      }
    }
  }

  /** What a call with both lists needs to write covers what the first list needs. */
  lemma FirstCanWrite(
    codec: AddressCodec, ids: seq<nat>, before: map<Signer, Bytes>,
    xs: seq<LocalSigner>, ys: seq<LocalSigner>, digest: Bytes)
    requires AreDisjoint(xs, ys) && Collected(xs + ys, digest).Some?
    requires CanWrite(codec, ids, before + Collected(xs + ys, digest).value)
    requires AllCanWrite(codec, before)
    ensures Collected(xs, digest).Some? && CanWrite(codec, ids, before + Collected(xs, digest).value)
  {
    CollectedConcat(xs, ys, digest);
    DisjointCollected(xs, ys, digest);
    CanWritePart(codec, ids, before, Collected(xs, digest).value, Collected(ys, digest).value);
  }

  lemma FirstOutcome(
    env: Env, base: AuthEntry, expiration: nat, ids: seq<nat>, before: map<Signer, Bytes>,
    xs: seq<LocalSigner>, ys: seq<LocalSigner>, digest: Bytes,
    first: Result<AuthEntry, SignError>, single: Result<AuthEntry, SignError>)
    requires IsOutcome(env, base, expiration, ids, before, Collected(xs, digest), first)
    requires IsOutcome(env, base, expiration, ids, before, Collected(xs + ys, digest), single)
    requires AreDisjoint(xs, ys) && AllCanWrite(env.addresses, before)
    ensures single.Ok? ==> first.Ok?
  {
    if single.Ok? {
      FirstCanWrite(env.addresses, ids, before, xs, ys, digest);
    }
  }

  /** Where one call with two disjoint lists succeeds, so does the call with the first. */
  lemma FirstCallSucceeds(env: Env, entry: AuthEntry, xs: seq<LocalSigner>, ys: seq<LocalSigner>, o: Options)
    requires IsAddressCodec(env.addresses) && HasNoDuplicates(env, entry) && IsCarried(entry)
    requires xs != [] && AreDisjoint(xs, ys) && Sign(env, entry, xs + ys, o).Ok?
    ensures Sign(env, entry, xs, o).Ok?
  {
    var expiration, digest, before := SignedIsReady(env, entry, xs + ys, o);
    OldSignaturesCarried(env, entry, o);
    SignOutcome(env, entry, xs + ys, o, entry, expiration, digest, before);
    SignOutcome(env, entry, xs, o, entry, expiration, digest, before);
    FirstOutcome(
      env, entry, expiration, AsU32(o.ruleIds), before, xs, ys, digest,
      Sign(env, entry, xs, o), Sign(env, entry, xs + ys, o));
  }

  /**
   * Signing in two calls is signing once with both lists. Where the first call
   * succeeds, the second and the single call succeed together with one entry. If
   * the lists are disjoint the first call cannot fail where the single one succeeds.
   */
  lemma TwoCallsAreOne(env: Env, entry: AuthEntry, xs: seq<LocalSigner>, ys: seq<LocalSigner>, o: Options)
    requires IsAddressCodec(env.addresses) && HasNoDuplicates(env, entry)
    requires xs != [] && ys != []
    ensures
      var twice, single := SignTwice(env, entry, xs, ys, o), Sign(env, entry, xs + ys, o);
      && (Sign(env, entry, xs, o).Ok? ==> (twice.Ok? <==> single.Ok?))
      && (IsCarried(entry) && AreDisjoint(xs, ys) ==> (twice.Ok? <==> single.Ok?))
      && (twice.Ok? ==> twice == single)
  {
    if Sign(env, entry, xs, o).Ok? {
      SecondCallIsSingle(env, entry, xs, ys, o);
    } else if IsCarried(entry) && AreDisjoint(xs, ys) && Sign(env, entry, xs + ys, o).Ok? {
      FirstCallSucceeds(env, entry, xs, ys, o);
    }
  }

  lemma SecondCallIsSingle(env: Env, entry: AuthEntry, xs: seq<LocalSigner>, ys: seq<LocalSigner>, o: Options)
    requires IsAddressCodec(env.addresses) && HasNoDuplicates(env, entry)
    requires ys != [] && Sign(env, entry, xs, o).Ok?
    ensures
      var second, single := Sign(env, Sign(env, entry, xs, o).value, ys, o), Sign(env, entry, xs + ys, o);
      && (second.Ok? <==> single.Ok?)
      && (second.Ok? ==> second == single)
  {
    var expiration, digest, before := SignedIsReady(env, entry, xs, o);
    SecondCallOutcome(env, entry, xs, ys, o, entry, expiration, digest, before);
    SignOutcome(env, entry, xs + ys, o, entry, expiration, digest, before);
    OutcomesAgree(
      env, entry, expiration, AsU32(o.ruleIds),
      before, Collected(xs + ys, digest), Sign(env, Sign(env, entry, xs, o).value, ys, o),
      before, Collected(xs + ys, digest), Sign(env, entry, xs + ys, o));
  }

  /** A second call has the outcome of collecting both lists at once. */
  lemma SecondCallOutcome(
    env: Env, entry: AuthEntry, xs: seq<LocalSigner>, ys: seq<LocalSigner>, o: Options,
    base: AuthEntry, expiration: nat, digest: Bytes, before: map<Signer, Bytes>)
    requires IsAddressCodec(env.addresses) && xs != [] && ys != []
    requires Ready(env, entry, o, base, expiration, digest, before)
    requires Sign(env, entry, xs, o).Ok?
    ensures IsOutcome(
              env, base, expiration, AsU32(o.ruleIds), before, Collected(xs + ys, digest),
              Sign(env, Sign(env, entry, xs, o).value, ys, o))
  {
    var first := Sign(env, entry, xs, o).value;
    SignOutcome(env, entry, xs, o, base, expiration, digest, before);
    var a := Collected(xs, digest).value;
    WrittenIsReady(env, entry, o, base, expiration, digest, before, before + a, first);
    SignOutcome(env, first, ys, o, base, expiration, digest, before + a);
    CollectedConcat(xs, ys, digest);
    RegroupOutcome(
      env, base, expiration, AsU32(o.ruleIds), before, a, Collected(ys, digest), Sign(env, first, ys, o));
  }

  lemma RegroupOutcome(
    env: Env, base: AuthEntry, expiration: nat, ids: seq<nat>, before: map<Signer, Bytes>,
    a: map<Signer, Bytes>, b: Option<map<Signer, Bytes>>, result: Result<AuthEntry, SignError>)
    requires IsOutcome(env, base, expiration, ids, before + a, b, result)
    ensures IsOutcome(
              env, base, expiration, ids, before, if b.Some? then Some(a + b.value) else None, result)
  {
    if b.Some? {
      UnionRegroups(before, a, b.value);
    }
  }

  lemma UnionRegroups(before: map<Signer, Bytes>, a: map<Signer, Bytes>, b: map<Signer, Bytes>)
    ensures (before + a) + b == before + (a + b)
  {
  }

  /** Lists in which every signer ends with the same signature sign alike. */
  lemma SigningIgnoresOrder(env: Env, entry: AuthEntry, xs: seq<LocalSigner>, ys: seq<LocalSigner>, o: Options)
    requires IsAddressCodec(env.addresses) && HasNoDuplicates(env, entry)
    requires ys != [] && Sign(env, entry, xs, o).Ok?
    requires forall digest :: Collected(xs, digest) == Collected(ys, digest)
    ensures Sign(env, entry, ys, o) == Sign(env, entry, xs, o)
  {
    var expiration, digest, before := SignedIsReady(env, entry, xs, o);
    SignOutcome(env, entry, xs, o, entry, expiration, digest, before);
    SignOutcome(env, entry, ys, o, entry, expiration, digest, before);
    OutcomesAgree(
      env, entry, expiration, AsU32(o.ruleIds),
      before, Collected(xs, digest), Sign(env, entry, xs, o),
      before, Collected(ys, digest), Sign(env, entry, ys, o));
  }

  /** Signing again with the same signers changes nothing. */
  lemma SigningIsIdempotent(env: Env, entry: AuthEntry, xs: seq<LocalSigner>, o: Options)
    requires IsAddressCodec(env.addresses) && HasNoDuplicates(env, entry)
    requires Sign(env, entry, xs, o).Ok?
    ensures Sign(env, Sign(env, entry, xs, o).value, xs, o) == Sign(env, entry, xs, o)
  {
    forall digest
      ensures Collected(xs, digest) == Collected(xs + xs, digest)
    {
      CollectedConcat(xs, xs, digest);
      if Collected(xs, digest).Some? {
        var m := Collected(xs, digest).value;
        assert m + m == m;
      }
    }
    SecondCallIsSingle(env, entry, xs, xs, o);
    SigningIgnoresOrder(env, entry, xs, xs + xs, o);
  }

  /**
   * Two parties with different identities can sign in either order, in two calls
   * or in one: the three ways succeed together, and then return one entry.
   */
  lemma PartiesCommute(env: Env, entry: AuthEntry, a: LocalSigner, b: LocalSigner, o: Options)
    requires IsAddressCodec(env.addresses) && HasNoDuplicates(env, entry) && IsCarried(entry)
    requires a.signer != b.signer
    ensures
      var ab, ba := SignTwice(env, entry, [a], [b], o), SignTwice(env, entry, [b], [a], o);
      var both := Sign(env, entry, [a, b], o);
      && (ab.Ok? <==> both.Ok?) && (ba.Ok? <==> both.Ok?)
      && (both.Ok? ==> ab == both && ba == both)
  {
    assert [a] + [b] == [a, b] && [b] + [a] == [b, a];
    TwoCallsAreOne(env, entry, [a], [b], o);
    TwoCallsAreOne(env, entry, [b], [a], o);
    PairsAgree(env, entry, a, b, o);
  }

  lemma PairsAgree(env: Env, entry: AuthEntry, a: LocalSigner, b: LocalSigner, o: Options)
    requires IsAddressCodec(env.addresses) && HasNoDuplicates(env, entry) && a.signer != b.signer
    ensures Sign(env, entry, [a, b], o).Ok? <==> Sign(env, entry, [b, a], o).Ok?
    ensures Sign(env, entry, [a, b], o).Ok? ==> Sign(env, entry, [a, b], o) == Sign(env, entry, [b, a], o)
  {
    forall digest
      ensures Collected([a, b], digest) == Collected([b, a], digest)
    {
      CollectedPair(a, b, digest);
      CollectedPair(b, a, digest);
      if a.sign(digest).Some? && b.sign(digest).Some? {
        var s, t := map[a.signer := a.sign(digest).value], map[b.signer := b.sign(digest).value];
        assert s + t == t + s;
      }
    }
    if Sign(env, entry, [a, b], o).Ok? {
      SigningIgnoresOrder(env, entry, [a, b], [b, a], o);
    } else if Sign(env, entry, [b, a], o).Ok? {
      SigningIgnoresOrder(env, entry, [b, a], [a, b], o);
    }
  }

  lemma CollectedOne(a: LocalSigner, digest: Bytes)
    ensures Collected([a], digest)
         == match a.sign(digest) case None => None case Some(s) => Some(map[a.signer := s])
  {
    assert [a][..0] == [];
    assert Collected([], digest) == Some(map[]);
  }

  lemma CollectedPair(a: LocalSigner, b: LocalSigner, digest: Bytes)
    ensures Collected([a, b], digest)
         == match (a.sign(digest), b.sign(digest))
            case (Some(s), Some(t)) => Some(map[a.signer := s] + map[b.signer := t])
            case _ => None
  {
    assert [a, b] == [a] + [b];
    CollectedConcat([a], [b], digest);
    CollectedOne(a, digest);
    CollectedOne(b, digest);
  }
}
