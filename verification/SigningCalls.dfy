/**
 * `signAuthEntryWithSigners` as callers see it: text or objects go in, the same
 * form comes out, and the caller's own object is left alone.
 */
module SigningCalls {
  import opened Wrappers
  import opened ByteStrings
  import opened OrderedMaps
  import opened Signers
  import opened ScVals
  import opened AuthPayloads
  import opened CanonicalPayloads
  import opened AuthDigests
  import opened AuthEntryInput
  import opened AuthEntries
  import opened CoSigning
  import opened CoSigningRuns

  // --------------------------------------------------------- specification

  /** A signed entry in the form of the input. */
  datatype Signed = SignedText(text: string) | SignedEntry(entry: AuthEntry)

  /** A kit object is copied through its encoding; other inputs were just decoded. */
  function Copied(codec: Codec<AuthEntry>, input: Input<AuthEntry>): Result<AuthEntry, InputError> {
    match ToAuthEntry(codec, input)
    case Err(e) => Err(e)
    case Ok(entry) =>
      if !input.Kit? then Ok(entry)
      else
        match codec.decode(codec.encode(entry))
        case None => Err(NotAnEntry)
        case Some(copy) => Ok(copy)
  }

  function SignInput(env: Env, input: Input<AuthEntry>, signers: seq<LocalSigner>, o: Options)
    : Result<Signed, SignError>
  {
    if signers == [] then Err(NoSigners)
    else
      match ParseScheme(o.scheme)
      case None => Err(UnknownScheme)
      case Some(scheme) =>
        match Copied(env.entries, input)
        case Err(e) => Err(BadInput(e))
        case Ok(entry) =>
          match SignDecoded(env, entry, signers, scheme, o)
          case Err(e) => Err(e)
          case Ok(signed) =>
            Ok(if input.Text? then SignedText(ToText(env.entries, signed)) else SignedEntry(signed))
  }

  // ----------------------------------------------------- text refines objects

  lemma SignKitIsSign(env: Env, entry: AuthEntry, signers: seq<LocalSigner>, o: Options)
    requires IsEnv(env)
    ensures SignInput(env, Kit(entry), signers, o)
         == match Sign(env, entry, signers, o) case Err(e) => Err(e) case Ok(signed) => Ok(SignedEntry(signed))
  {
  }

  /**
   * Signing the text of an entry, with any white space around it, gives the text
   * of what signing the object gives, and fails with the same error.
   */
  lemma StringPathRefines(
    env: Env, before: string, entry: AuthEntry, after: string, signers: seq<LocalSigner>, o: Options)
    requires IsEnv(env) && IsBlank(before) && IsBlank(after)
    ensures SignInput(env, Text(before + ToText(env.entries, entry) + after), signers, o)
         == match SignInput(env, Kit(entry), signers, o)
            case Err(e) => Err(e)
            case Ok(signed) => Ok(SignedText(ToText(env.entries, signed.entry)))
  {
    AcceptsSurroundedText(env.entries, before, entry, after);
  }

  /** Any object that encodes itself as the entry is signed as the kit's own object is. */
  lemma ForeignPathRefines(env: Env, xdr: Bytes, entry: AuthEntry, signers: seq<LocalSigner>, o: Options)
    requires IsEnv(env) && env.entries.decode(xdr) == Some(entry)
    ensures SignInput(env, Foreign(Some(xdr)), signers, o) == SignInput(env, Kit(entry), signers, o)
  {
    AcceptsForeignIff(env.entries, Some(xdr), entry);
  }

  /** Text that is signed is the canonical text of an entry whose signing succeeds. */
  lemma SignedTextIsAnEntry(env: Env, text: string, signers: seq<LocalSigner>, o: Options) returns (entry: AuthEntry)
    requires IsEnv(env) && SignInput(env, Text(text), signers, o).Ok?
    ensures Trim(text) == ToText(env.entries, entry)
    ensures Sign(env, entry, signers, o).Ok?
    ensures SignInput(env, Text(text), signers, o).value
         == SignedText(ToText(env.entries, Sign(env, entry, signers, o).value))
  {
    entry := ToAuthEntry(env.entries, Text(text)).value;
    AcceptsExactlyCanonicalText(env.entries, text, entry);
  }

  /** Parties pass the text on; where a call throws the text stays as it was. */
  function RunText(env: Env, network: string, scheme: string, text: string, calls: seq<Call>): string
    decreases |calls|
  {
    if calls == [] then text
    else
      var next := match SignInput(env, Text(text), calls[0].signers, OptionsOf(network, scheme, calls[0]))
        case Ok(SignedText(signed)) => signed
        case _ => text;
      RunText(env, network, scheme, next, calls[1..])
  }

  /** Parties that pass base64 on end with the base64 of what passing objects on gives. */
  lemma {:induction false} TextRunsRefineEntryRuns(
    env: Env, network: string, scheme: string, entry: AuthEntry, calls: seq<Call>)
    requires IsEnv(env)
    ensures RunText(env, network, scheme, ToText(env.entries, entry), calls)
         == ToText(env.entries, Run(env, network, scheme, entry, calls))
    decreases |calls|
  {
    if calls != [] {
      var text, o := ToText(env.entries, entry), OptionsOf(network, scheme, calls[0]);
      assert "" + text + "" == text;
      StringPathRefines(env, "", entry, "", calls[0].signers, o);
      SignKitIsSign(env, entry, calls[0].signers, o);
      var next := match Sign(env, entry, calls[0].signers, o) case Ok(signed) => signed case Err(_) => entry;
      TextRunsRefineEntryRuns(env, network, scheme, next, calls[1..]);
    }
  }

  // -------------------------------------------------------- the object form

  /** A kit `SorobanAuthorizationEntry`, whose credentials are written in place. */
  class EntryObject {
    var credentials: Credentials
    var root: Invocation

    constructor (entry: AuthEntry)
      ensures View() == entry
    {
      credentials, root := entry.credentials, entry.root;
    }

    function View(): AuthEntry
      reads this
    {
      AuthEntry(credentials, root)
    }

    method WriteExpiration(expiration: nat)
      requires GetCredentials(View()).Some?
      modifies this`credentials
      ensures View() == WithSignature(old(View()), expiration, GetCredentials(old(View())).value.signature)
    {
      match credentials
      case AddressV1(c) => credentials := AddressV1(c.(expiration := expiration));
      case AddressV2(c) => credentials := AddressV2(c.(expiration := expiration));
    }

    method WriteSignature(signature: ScVal)
      requires GetCredentials(View()).Some?
      modifies this`credentials
      ensures View() == WithSignature(old(View()), GetCredentials(old(View())).value.expiration, signature)
    {
      match credentials
      case AddressV1(c) => credentials := AddressV1(c.(signature := signature));
      case AddressV2(c) => credentials := AddressV2(c.(signature := signature));
    }
  }

  /** The AuthPayload that a call reads, updates and writes back. */
  class PayloadObject {
    var ruleIds: seq<nat>
    var signers: SignatureMap

    constructor (payload: AuthPayload)
      ensures View() == payload
    {
      ruleIds, signers := payload.ruleIds, payload.signers;
    }

    function View(): AuthPayload
      reads this
    {
      AuthPayload(ruleIds, signers)
    }

    /** `upsertAuthPayloadSigner`. */
    method UpsertSigner(owner: SignerObject, signature: Bytes)
      modifies this`signers
      ensures signers == Upsert(old(signers), owner, signature)
    {
      var i := 0;
      while i < |signers| && !SignersEqual(signers[i].key.signer, owner.signer)
        invariant 0 <= i <= |signers| && signers == old(signers)
        invariant DeleteFirstEqual(signers, owner.signer)
               == signers[..i] + DeleteFirstEqual(signers[i..], owner.signer)
      {
        assert signers[i..][1..] == signers[i + 1..];
        i := i + 1;
      }
      if i < |signers| {
        assert signers[i..][1..] == signers[i + 1..];
        signers := signers[..i] + signers[i + 1..];
      }
      assert signers == DeleteFirstEqual(old(signers), owner.signer);
      signers := Set(signers, owner, signature);
    }

    /** The loop over the signers; it stops at the first one that throws. */
    method CollectSignatures(list: seq<LocalSigner>, digest: Bytes) returns (ok: bool)
      modifies this`signers
      ensures ok <==> SignAll(old(signers), list, digest).Some?
      ensures ok ==> SignAll(old(signers), list, digest) == Some(signers)
    {
      for i := 0 to |list|
        invariant SignAll(old(signers), list[..i], digest) == Some(signers)
      {
        assert list == list[..i] + list[i..];
        SignAllConcat(old(signers), list[..i], list[i..], digest);
        match list[i].sign(digest)
        case None =>
          return false;
        case Some(signature) =>
          assert list[..i + 1] == list[..i] + [list[i]];
          SignAllConcat(old(signers), list[..i], [list[i]], digest);
          UpsertSigner(SignerObject(list[i].handle, list[i].signer), signature);
      }
      assert list[..|list|] == list;
      return true;
    }
  }

  /**
   * `computeEntryAuthDigest` on a kit object: it returns the digest and, as a
   * side effect, writes the expiration into the entry.
   */
  method ComputeEntryAuthDigest(
    env: Env, network: string, entry: EntryObject, expiration: nat, ids: seq<nat>, scheme: Scheme)
    returns (digest: Bytes)
    requires GetCredentials(entry.View()).Some?
    modifies entry`credentials
    ensures digest == Digest(env, network, scheme, old(entry.View()), expiration, ids)
    ensures forall name :: ParseScheme(name) == Some(scheme) ==>
                             digest == ExpectedDigest(env, network, name, old(entry.View()), expiration, ids)
    ensures entry.View()
         == WithSignature(old(entry.View()), expiration, GetCredentials(old(entry.View())).value.signature)
  {
    entry.WriteExpiration(expiration);
    var c := GetCredentials(entry.View()).value;
    var preimage := env.envelope(HostPreimageOf(env, network, entry.View()));
    digest := env.hash(Hashed(scheme, DigestInput(c.address, env.hash(preimage), ids)));
    forall name | ParseScheme(name) == Some(scheme)
      ensures digest == ExpectedDigest(env, network, name, old(entry.View()), expiration, ids)
    {
      DigestIsExpected(env, network, name, old(entry.View()), expiration, ids);
    }
  }

  /** What a caller passes; a kit object is passed by reference. */
  datatype CallerInput =
    | KitObject(it: EntryObject)
    | TextInput(text: string)
    | ForeignObject(xdr: Option<Bytes>)
    | AnythingElse

  datatype CallerOutput = TextOutput(text: string) | EntryOutput(it: EntryObject)

  function InputView(input: CallerInput): Input<AuthEntry>
    reads if input.KitObject? then {input.it} else {}
  {
    match input
    case KitObject(it) => Kit(it.View())
    case TextInput(text) => Text(text)
    case ForeignObject(xdr) => Foreign(xdr)
    case AnythingElse => Other
  }

  /** The value a caller sees in the output. */
  predicate OutputIs(output: CallerOutput, signed: Signed)
    reads if output.EntryOutput? then {output.it} else {}
  {
    match output
    case TextOutput(text) => signed == SignedText(text)
    case EntryOutput(it) => signed == SignedEntry(it.View())
  }

  /** Signing the copy in place: the copy ends as `SignDecoded` says. */
  method SignInPlace(env: Env, signed: EntryObject, list: seq<LocalSigner>, scheme: Scheme, o: Options)
    returns (error: Option<SignError>)
    modifies signed`credentials
    ensures SignDecoded(env, old(signed.View()), list, scheme, o)
         == match error case None => Ok(signed.View()) case Some(e) => Err(e)
  {
    ghost var before := signed.View();
    var checked := Check(env, signed.View(), o);
    if checked.Err? {
      return Some(checked.error);
    }
    if !AreU32(o.ruleIds) {
      return Some(RuleIdsNotU32);
    }
    var ids, expiration := AsU32(o.ruleIds), checked.value.expiration;
    var digest := ComputeEntryAuthDigest(env, o.network, signed, expiration, ids, scheme);
    var payload := new PayloadObject(checked.value.payload);
    var allSigned := payload.CollectSignatures(list, digest);
    if !allSigned {
      return Some(SignerFailed);
    }
    payload.ruleIds := ids;
    var signature := Write(env.addresses, payload.View());
    if signature == None {
      return Some(PayloadNotWritable);
    }
    signed.WriteSignature(signature.value);
    WithSignatureTwice(
      before, expiration, GetCredentials(before).value.signature, expiration, signature.value);
    return None;
  }

  /**
   * `signAuthEntryWithSigners` computes `SignInput`. It modifies no object that
   * existed before the call, and an entry object it returns is a new one.
   */
  method SignAuthEntryWithSigners(env: Env, input: CallerInput, list: seq<LocalSigner>, o: Options)
    returns (result: Result<CallerOutput, SignError>)
    ensures result.Ok? <==> SignInput(env, InputView(input), list, o).Ok?
    ensures result.Ok? ==> OutputIs(result.value, SignInput(env, InputView(input), list, o).value)
    ensures result.Ok? && result.value.EntryOutput? ==> fresh(result.value.it)
    ensures result.Err? ==> SignInput(env, InputView(input), list, o) == Err(result.error)
  {
    if list == [] {
      return Err(NoSigners);
    }
    var scheme := ParseScheme(o.scheme);
    if scheme == None {
      return Err(UnknownScheme);
    }
    var copied := Copied(env.entries, InputView(input));
    if copied.Err? {
      return Err(BadInput(copied.error));
    }
    var signed := new EntryObject(copied.value);
    var error := SignInPlace(env, signed, list, scheme.value, o);
    match error {
      case Some(e) =>
        return Err(e);
      case None =>
        if input.TextInput? {
          return Ok(TextOutput(ToText(env.entries, signed.View())));
        }
        return Ok(EntryOutput(signed));
    }
  }
}
