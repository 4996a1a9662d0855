# Smart Account Kit, verified

A Dafny model of the parts of the Smart Account Kit (a TypeScript SDK for Stellar
smart-account wallets) whose correctness is not visible in any one function:

- **Co-signing.** Several parties sign one authorization entry in turn. `ScVals`,
  `AuthPayloads`, `PayloadReading`, `CanonicalPayloads` and `AuthDigests` model what
  they sign and what the entry carries, down to the XDR bytes (RFC 4506), which
  `XdrLayout` spells out; `HostOrder` is the order of map keys, stated without the
  comparison function. `AuthEntries` has the checks and the digest; `CoSigning` one
  call; `SigningConditions` when it signs and why it refuses; `CoSigningRuns` every
  run of calls; `SigningCalls` the entry point with its text form and its objects.
- **Text boundaries.** `Base64`, `ByteStrings` (hex) and `Decimals` are concrete
  codecs, and `Utf8` is text that is decoded and encoded again. `AuthEntryInput`
  accepts canonical base64 only, `DerSignature` turns DER
  signatures into the compact low-S form, `CredentialIds` moves ids between
  base64url, bytes and hex, and `Signers` prints keys that identify signers.
- **State machines.** `Events` is the emitter with listeners that register, remove
  and emit while they run; `EventRuns`, `EventDelivery`, `EventCosts` and
  `EventRegistrations` are about all its runs, and `EventEmitter` is the object.
  `WalletAdapter`, `ExternalSigners`, `ExternalSignerProperties`, `SignerListings`,
  `InterleavedCalls` and `ExternalSignerManagers` are the external signers with
  their adapter and persisted list.
- **Gatekeepers.** `DigestSchemes` is the table of digest schemes and the lifecycle
  of a wallet; `Indexer` the verdict that a candidate lookup is complete.

Objects that the program updates in place are classes whose methods are proved
against functions on their state; the properties are proved about those functions.
A function that throws in the program returns `Err` or `None` here. What comes
from outside is a parameter: the strkey codec, the hash, the encodings of the
entry and of the host's preimage, the answers of wallets, and local signers, each
a function of the digest.

No hash is assumed to be injective. Where a property needs that two digests
differ, it says instead that they are equal only if the hash has a collision,
which it exhibits.

## What was found

- The rule-id check is skipped when the existing list is empty. Signatures in such
  a payload are left behind when the call writes the caller's ids
  (`RuleSelectionKeptIff`, `EmptySelectionLeavesSignaturesBehind`, with an entry
  in `EmptySelectionIsSigned`), although src/signers.ts:254-256 says that a
  changed rule selection throws. No payload written by this code has that shape,
  and `RunKeepsCovered` carries the invariant that excludes it.
- `compareScVal` does not tell ill-formed texts apart: it compares strings and
  symbols after decoding them, so 0x80 and 0x81 are equal to it
  (`TextsCoincideIff`, `StrayBytesCompareEqual`). The keys that `writeAuthPayload`
  sorts are not affected (`SignerKeyIsText`).
- For signed integers `compareScVal` is not the numeric order, although
  src/kit/auth-payload.ts:400-402 says that the order of fixed-width encodings is the
  host's: it puts negative numbers behind all others (`SignedOrderIff`,
  `NegativeComesLast`). No signer key contains one.
- A credential id whose base64url text consists of hex digits only is looked up
  under the wrong key (`NormalizesEncodedIff`, `ZeroIdsAreMisread`).
- `emit` does not always come to an end: a listener that emits its own event or
  registers another listener each time keeps it going (`EmitNeedNotEnd`);
  `EndingsAreBounded` gives a bound for every run.
- `off` with a listener that was passed to `once` does nothing (`OffKeepsOnce`,
  `OnceRunsDespiteOff`), and `removeAllListeners` does not stop an emit in
  progress (`RemoveAllDoesNotStopEmit`).
- For the empty address `canSignFor` and `signAuthEntry` of the adapter disagree:
  the former refuses it, the latter signs with the wallet connected first
  (`ReachesKitIff`, `EmptyAddressSigns`).
- `removeAll` throws before `init` and then leaves the stored list in place
  (`RemoveAllClearsIff`), so the wallets come back (`FailedRemoveAllComesBack`).
- While a restore awaits, a failed reconnection drops an entry that was saved
  meanwhile (`FailedReconnectDropsSaved`), and a later reconnection undoes a
  `remove` (`RemoveIsUndone`) and a `removeAll` that disconnected everything
  (`RemoveAllIsUndone`, from a new session in `RemoveAllIsUndoneFromStart`).
  `CanSignAsLastDecided` and `RemoveStaysIff` say for every run when a removal
  stays in force; it does if no later answer or keypair is the address
  (`RemoveStays`, `RemoveAllStays`).
- A keypair that is added while `removeAll` awaits the disconnection survives it
  (`KeypairSurvivesRemoveAll`).
- A connection callback that throws makes a restore drop the entry of a wallet that
  is connected (`ThrowingCallbackDropsEntry`).
- The stored name of a wallet is never used: a wallet that is restored and whose
  product has no name is listed under its id (`ReconnectedWalletIsListed`).
- A configured list of accepted code need not contain the code that is deployed
  (`DeployedCodeAcceptedIff`).

## Model

| member | source | states |
|---|---|---|
| CoSigningRuns.EverySignatureCoversFinalDigest | src/signers.ts:303-404 | in every run of calls from an unsigned entry, with any signers, orders and options, each collected signature verifies over one digest, spelled out field by field: of the nonce, address and calls of the entry given, with the expiration and rule ids of the final one |
| CoSigningRuns.FinalDigestIsOfNoOther | src/signers.ts:249-256 | an entry with that digest has the final expiration and rule ids, and authorizes the same calls with the same nonce on the same network, or the hash has a collision, which is named; so no signature of a run fits another entry |
| CoSigningRuns.RunKeepsSubject | src/signers.ts:322-404 | no run changes the calls, the nonce, the address or the version of the credentials |
| CoSigningRuns.RunKeepsCovered | src/signers.ts:351-402 | the invariant behind it: signers are listed once, signatures imply a rule selection, and every signature covers the current digest; failing calls change nothing |
| CoSigningRuns.CallKeepsCovered | src/signers.ts:351-402 | one successful call of genuine signers keeps that invariant |
| CoSigningRuns.CallKeeps | src/signers.ts:360-402 | a successful call adds exactly the collected signatures, keeps the call tree, and keeps the expiration once there is a signature and the rule ids once there are any |
| CoSigningRuns.SignedEntryIsFixed | src/signers.ts:254-256 | after the first signature no run of calls changes the expiration, the rule ids or the authorized calls, and none drops a signer |
| CoSigningRuns.RuleSelectionKeptIff | src/signers.ts:377-386 | a call keeps the rule ids that were there exactly when there were some |
| CoSigningRuns.EmptySelectionLeavesSignaturesBehind | src/signers.ts:377-386 | signing a payload with an empty id list keeps the signature of every signer outside the list while the bytes that the digest hashes change, and the digest with them unless the hash has a collision |
| CoSigningRuns.EmptySelectionIsSigned | src/signers.ts:377-386 | there is such an entry, with a signature and without rule ids, on which another signer's call succeeds |
| CoSigning.SignOutcome | src/signers.ts:388-403 | a call that passes the checks succeeds exactly when every signer signs and the result can be written, and returns the old signatures updated by the new ones |
| CoSigning.SignAllMeaning | src/signers.ts:396-399 | the signing loop is a map update: the last signature of a repeated identity stays, and no signer is listed twice |
| CoSigning.TwoCallsAreOne | src/signers.ts:303-404 | signing in two calls succeeds together with signing once with both lists, with the same entry, if the lists are disjoint or the first call succeeds |
| CoSigning.FirstCallSucceeds | src/signers.ts:388-403 | where one call with two disjoint lists succeeds, so does the call with the first |
| CoSigning.SignedIsCarried | src/signers.ts:401-402 | the signature value that a call writes is one that XDR carries |
| CoSigning.PartiesCommute | src/signers.ts:303-404 | two parties with different identities can sign in either order or in one call: the three ways succeed together, with one entry |
| CoSigning.SigningIgnoresOrder | src/signers.ts:396-399 | lists that leave every signer the same signature give the same entry |
| CoSigning.SigningIsIdempotent | src/signers.ts:303-404 | signing again with the same signers changes nothing |
| SigningCalls.StringPathRefines | src/signers.ts:322-328 | signing the base64 of an entry, whatever white space is around it, gives the base64 of what signing the object gives, and fails with the same error |
| SigningCalls.SignedTextIsAnEntry | src/signers.ts:322-404 | text that is signed is the canonical text of an entry whose signing succeeds with that result |
| SigningCalls.TextRunsRefineEntryRuns | src/signers.ts:258-261 | parties that pass base64 on end with the base64 of what passing objects on gives |
| SigningConditions.PassesIffEveryCallIsHarmless | src/kit/auth-payload.ts:18-110 | an entry passes the generic path exactly when no call at any depth is one of the eleven administrative calls of the wallet or has an unprintable target |
| SigningConditions.SignedEntriesAreHarmless | src/signers.ts:349-351 | nothing that is signed contains such a call |
| SigningConditions.SignsIff | src/signers.ts:308-403 | a call signs exactly when its arguments, the entry and the signers meet the conditions, listed without their order, and then for the ledger that they name |
| SigningConditions.ChecksPassIff | src/signers.ts:334-386 | the checks on the entry pass exactly under the conditions on it, and give that ledger and payload |
| SigningConditions.SignedForRequestedLedger | src/signers.ts:351-360 | a signed entry expires at the requested ledger, rounded up, or where none is requested when it did before |
| SigningConditions.ErrorsAreTrue | src/signers.ts:308-386 | a call that throws names a reason that is true of the entry, the options or the signers |
| SigningCalls.ForeignPathRefines | src/kit/auth-entry-input.ts:97-125 | any object that encodes itself as an entry is signed as the kit's own object |
| SigningCalls.EntryObject.WriteExpiration | src/kit/auth-payload.ts:172-179 | writing the expiration into an entry changes nothing else |
| SigningCalls.PayloadObject.UpsertSigner | src/kit/auth-payload.ts:484-497 | the in-place upsert computes `Upsert` on the signer map |
| SigningCalls.PayloadObject.CollectSignatures | src/signers.ts:396-399 | the loop updates the payload as `SignAll` says and fails where a signer throws |
| SigningCalls.ComputeEntryAuthDigest | src/signers.ts:81-121 | the digest is that of the entry before the call; as a side effect the entry gets the expiration and keeps its signature |
| SigningCalls.SignInPlace | src/signers.ts:329-402 | the copy ends as `SignDecoded` says, or the same error is thrown |
| SigningCalls.SignAuthEntryWithSigners | src/signers.ts:303-404 | the call computes `SignInput`, modifies no object of the caller, and returns a new object |
| AuthEntries.NormalizeRoundsUp | src/kit/auth-payload.ts:187-201 | the expiration is the least ledger not before the requested one, for exactly the numbers from 0 to 2^32 - 1 |
| AuthEntries.DigestIsExpected | src/signers.ts:81-121 | under either scheme name the digest is the hash of these bytes: the hash of the host's preimage with the given expiration, the rule ids, and under `preimage-v1` the account |
| AuthEntries.PayloadOfStampedEntry | src/kit/auth-payload.ts:164-185 | the digest of an entry that carries the expiration is over the preimage of the entry as it stands |
| AuthEntries.DigestBindsEntry | src/signers.ts:7-13 | equal digests of two entries come from the same scheme, rule ids, network, nonce, expiration and calls, and with V2 credentials or under `preimage-v1` from the same address, or they exhibit a collision |
| AuthEntries.DigestIgnoresSignature | src/kit/auth-payload.ts:164-185 | the digest depends on neither the signature nor the old expiration |
| AuthEntries.CheckAgain | src/signers.ts:349-386 | an entry that carries the result of a check passes it again with the same expiration |
| AuthDigests.DigestBinds | src/signers.ts:7-13 | equal digests come from the same scheme, signature payload and rule ids, and under preimage-v1 the same account, or they exhibit a collision |
| AuthDigests.SchemesAreSeparated | src/signers.ts:91-111 | no bytes are hashed under both schemes |
| AuthDigests.LegacyIgnoresAccount | src/kit/auth-payload.ts:241-251 | legacy-concat does not bind the account |
| XdrLayout.PreimageLayout | src/kit/auth-payload.ts:253-289 | the bytes hashed under `preimage-v1`, each of them, for any account, payload and rule ids |
| XdrLayout.LegacyLayout | src/kit/auth-payload.ts:241-251 | likewise under `legacy-concat` |
| XdrLayout.FieldsAreInHostOrder | src/kit/auth-payload.ts:253-285 | the fields of the preimage and of the payload are in host order |
| XdrLayout.XdrIsAligned | src/kit/auth-payload.ts:242-251 | every encoding is a whole number of four-byte units |
| XdrLayout.OpaqueLayout | src/kit/auth-payload.ts:389-393 | a text or byte string is encoded as its length, its bytes and zeros up to the next multiple of four |
| AuthPayloads.UpsertMeaning | src/kit/auth-payload.ts:484-497 | upserting into a payload without repeats is a map update and adds no repeat |
| AuthPayloads.UpsertCount | src/kit/auth-payload.ts:484-497 | a new signer object ends up listed once exactly when an equal signer was listed at most once |
| AuthPayloads.ParseSignerOfScVal | src/kit/auth-payload.ts:519-575 | parsing the encoding of a signer gives it back |
| AuthPayloads.SignerKeyIsText | src/kit/auth-payload.ts:519-532 | the texts in a signer's key are well-formed UTF-8 |
| PayloadReading.ReadsIff | src/kit/auth-payload.ts:333-384 | a signature is read as a payload exactly when it is void or a map whose fields of the two names have their types, with keys that are signers |
| PayloadReading.ReadMeaning | src/kit/auth-payload.ts:333-384 | of any such map the last rule ids count, and all signer entries, in order |
| CanonicalPayloads.ReadAfterWrite | src/kit/auth-payload.ts:333-384 | reading a written payload gives its rule ids and every signer's signature back |
| CanonicalPayloads.WriteIsCanonical | src/kit/auth-payload.ts:457-482 | payloads with the same rule ids and signatures are written as the same value, whatever their order |
| CanonicalPayloads.WrittenMapIsHostSorted | src/kit/auth-payload.ts:457-482 | the signer map is strictly ascending in host order, stated lexicographically, exactly when no signer is listed twice, and then has one entry for each signature of the payload and no other |
| CanonicalPayloads.WrittenSignersAreOrdered | src/kit/auth-payload.ts:457-482 | its signers are the delegated ones by address, then the external ones by verifier and, byte by byte, key data |
| CanonicalPayloads.WritesIff | src/kit/auth-payload.ts:457-482 | a payload can be written exactly when every id, address and size is encodable |
| CanonicalPayloads.ReadIsCarried | src/kit/auth-payload.ts:333-384 | every signature read from a value that XDR carries can be written again |
| CanonicalPayloads.SortedIsUnique | src/kit/auth-payload.ts:457-482 | there is one strictly sorted list of given entries |
| ScVals.CompareSign | src/kit/auth-payload.ts:404-455 | the comparison is zero exactly on values that agree once their texts are decoded, and changes sign when swapped; which way it goes is `CompareIsHostOrder` |
| HostOrder.CompareIsHostOrder | src/kit/auth-payload.ts:386-455 | it is negative exactly on values in host order: the smaller type, the first byte, element or entry that differs, a proper prefix before what extends it |
| HostOrder.SignedOrderIff | src/kit/auth-payload.ts:400-402 | it orders signed integers as numbers exactly when both or neither are negative |
| HostOrder.NegativeComesLast | src/kit/auth-payload.ts:400-402 | it puts -1 behind 1 |
| ScVals.CompareTransitive | src/kit/auth-payload.ts:404-455 | the comparison is transitive, also across values that it does not tell apart |
| ScVals.TextsCoincideIff | src/kit/auth-payload.ts:434-443 | two strings or symbols compare as equal exactly when they decode to one text, which on well-formed texts is equality |
| ScVals.StrayBytesCompareEqual | src/kit/auth-payload.ts:439-443 | the strings 0x80 and 0x81 are different and compare as equal |
| Utf8.FixedIffWellFormed | src/kit/auth-payload.ts:434-443 | decoding and encoding again changes exactly the ill-formed texts |
| Utf8.ReencodedIsWellFormed | src/kit/auth-payload.ts:434-443 | and makes them well formed |
| Utf8.WellFormedIff | src/kit/auth-payload.ts:434-443 | bytes are well formed exactly when they are the UTF-8 encoding of some code points, surrogates excluded |
| ScVals.XdrSplit | src/kit/auth-payload.ts:242-251 | the XDR encoding of values other than contract instances is uniquely decodable: equal encodings with anything behind them come from equal values |
| Decimals.JoinInjective | src/signers.ts:377-380 | lists with the same joined text are the same list |
| Decimals.ParsePrintNat | src/signers.ts:377-380 | reading a printed number gives it back |
| AuthEntryInput.AcceptsExactlyCanonicalText | src/kit/auth-entry-input.ts:75-95 | a string is accepted as an entry exactly when its trimmed form is that entry's canonical padded base64 |
| AuthEntryInput.TextsAndEntriesCorrespond | src/kit/auth-entry-input.ts:75-95 | accepted strings give the same entry exactly when they have the same trimmed form |
| AuthEntryInput.RejectsUnusedBits | src/kit/auth-entry-input.ts:90-94 | a string that matches the pattern with a nonzero unused bit is rejected |
| AuthEntryInput.AcceptsSurroundedText | src/kit/auth-entry-input.ts:76 | white space around canonical text does not matter |
| AuthEntryInput.AcceptsForeignIff | src/kit/auth-entry-input.ts:97-125 | an object of another SDK is accepted exactly if it encodes itself to bytes of an entry, canonical or not |
| AuthEntryInput.TextRefusalIsTrue | src/kit/auth-entry-input.ts:75-95 | text that is refused names a reason that is true of it |
| Base64.RoundTripIffCanonical | src/kit/auth-entry-input.ts:90-94 | regrouping sextets to octets and back is the identity exactly on canonical sextets |
| Base64.DecodeEncode | src/kit/auth-entry-input.ts:82 | decoding base64 gives the bytes back |
| Base64.GroupsKeepBits | src/kit/auth-entry-input.ts:82 | four characters carry the bits of three bytes, most significant first |
| Base64.PatternShape | src/kit/auth-entry-input.ts:26-27 | the pattern matches exactly the padded alphabet strings whose body is not one character over a multiple of four |
| Base64.ReencodesIffClean | src/kit/auth-entry-input.ts:90-94 | a string that matches the pattern re-encodes to itself exactly when its unused bits are zero |
| DerSignature.AcceptsExactly | src/utils.ts:289-333 | a buffer is accepted exactly when it is a short-form SEQUENCE of two INTEGERs that spans it, each 1 to 33 octets and in [1, n - 1] |
| DerSignature.CompactsEverySignature | src/utils.ts:319-344 | every signature in range becomes big-endian r and low s, 32 bytes each |
| DerSignature.OutputDecodes | src/utils.ts:335-344 | the 64 output bytes read back as r and as s or n - s, the latter at most n/2 |
| DerSignature.SameCompactFormIff | src/utils.ts:335-344 | two signatures compact alike exactly when they differ at most in the sign of s |
| DerSignature.ParsesSequence | src/utils.ts:292-321 | the parser takes exactly the two integers out of a well-formed sequence |
| DerSignature.LeadingZeroAccepted | src/utils.ts:300-318 | a redundant zero octet in front of r changes nothing |
| ByteStrings.PrintPadDecode | src/utils.ts:341-342 | printing in hex, padding and decoding gives the fixed-width big-endian bytes |
| ByteStrings.HexDecodeHexOf | src/kit/auth-digest-scheme.ts:89-98 | hex decoding undoes hex printing |
| Signers.KeyIdentifiesSigner | src/signer-utils.ts:37-44 | two signers have the same key exactly when they are equal, whatever their texts and bytes |
| Signers.CollectUniqueSigners | src/signer-utils.ts:46-57 | the loop over a Map returns the first occurrences |
| Signers.FirstOccurrencesCover | src/signer-utils.ts:46-57 | the result is pairwise unequal and has exactly the signers of the input |
| Signers.FirstOccurrencesOrder | src/signer-utils.ts:46-57 | they are in the order of their first appearance |
| Signers.FirstOccurrencesIdempotent | src/signer-utils.ts:46-57 | collecting again changes nothing |
| CredentialIds.RecoversPackedId | src/signer-utils.ts:5-17 | the id packed behind a 65-byte key comes back exactly when it is non-empty canonical base64url |
| CredentialIds.RecoversRawId | src/utils.ts:160-170 | packed bytes come back as their base64url text, and empty ones are lost |
| CredentialIds.NormalizesEncodedIff | src/kit/indexer-ops.ts:47-58 | the base64url text of non-empty bytes normalizes to their hex exactly when it has a character that is no hex digit |
| CredentialIds.NormalizeFixesLowerHex | src/kit/indexer-ops.ts:48-50 | non-empty lower-case hex is left alone |
| CredentialIds.NormalizeKeepsHexDigits | src/kit/indexer-ops.ts:48-50 | hex text in any case keeps the value of every digit and becomes lower case |
| CredentialIds.NormalizeIsLowerHex | src/kit/indexer-ops.ts:47-58 | the result is lower-case hex and normalizes to itself |
| CredentialIds.ZeroIdsAreMisread | src/kit/indexer-ops.ts:47-58 | ids of zero bytes, in multiples of three, never normalize to their hex |
| EventRuns.OnceFiresAtMostOnce | src/events.ts:139-148 | in every run a listener registered with `once` runs at most once |
| EventRuns.UnsubscribeCancelsOnce | src/events.ts:143-147 | after the function that `once` returned was called, the listener never runs again |
| EventRuns.OffKeepsOnce | src/events.ts:156-164 | no number of calls of `off`, with whatever listeners, removes a `once` wrapper |
| EventRuns.StepEffect | src/events.ts:116-208 | every step keeps the invariant, refills no slot, and calls at most one listener, which was present |
| EventDelivery.EmitCallsEachListenerOnce | src/events.ts:176-193 | a listener present when an emit begins is called exactly once before the emit ends, unless it was deleted before its turn; only a throwing error handler cuts the emit short |
| EventDelivery.RemoveAllDoesNotStopEmit | src/events.ts:176-208 | a listener registered when an emit begins is called exactly once by the time that emit ends, whatever comes in between, `removeAllListeners` included, unless it is named to `off`, the function returned for it is called, or the emit is aborted |
| EventDelivery.WaitingIsCalledOnce | src/events.ts:182-191 | the same for a listener that an emit in progress has not reached, so also for one that was registered meanwhile |
| EventRegistrations.OnceRunsDespiteOff | src/events.ts:139-164 | from any state, a listener passed to `once` itself runs exactly once at the next emit, whatever calls of `off` come in between, unless it is deleted before its turn |
| EventRegistrations.OnceRegisters | src/events.ts:139-148 | `once` adds a wrapper of its listener behind all slots of the event's Set, which raises the count by one even if the listener is registered, and changes no other slot |
| EventRegistrations.RegisteredAsLastDecided | src/events.ts:116-208 | in every run a function is registered for an event at the end exactly as the last step that concerns it left it; no step on another event does |
| EventRegistrations.ErrorsAreIsolated | src/events.ts:183-190 | a listener's error reaches the handler exactly when one is set; then the emit goes on as if the listener had returned, unless the handler throws |
| EventRegistrations.HandlerIsLastSet | src/events.ts:105-107 | whether one is set is what the last call of `setErrorHandler` said |
| EventDelivery.CallsAreInOrder | src/events.ts:182 | the calls of one emit are in insertion order, all from one Set |
| EventCosts.QuietEmitCallsListenerCount | src/events.ts:213-215 | `listenerCount` is the number of calls of an emit whose listeners only return |
| EventCosts.OnThenOff | src/events.ts:116-164 | registering adds one to the count exactly when the listener was not registered, again adds nothing, and `off` takes one away |
| EventCosts.EndingsAreBounded | src/events.ts:176-193 | in every run the endings of listeners and handlers are at most two for each listener ahead of an emit in progress, two for each listener of every further emit, and two for each emit in progress on the Set of each registration |
| EventCosts.EmitsTerminate | src/events.ts:176-193 | without registrations the listeners and handlers that end in a run are bounded by the listeners ahead and by the size of a Set for each further emit |
| EventCosts.EmitNeedNotEnd | src/events.ts:176-193 | a listener that emits its own event nests to any depth, and one that registers another keeps one emit going for ever |
| EventEmitter.SmartAccountEventEmitter.Add | src/events.ts:120-130 | `on` adds to the Set of the event and returns what unsubscribes from that very Set |
| EventEmitter.SmartAccountEventEmitter.Once | src/events.ts:139-148 | `once` registers a fresh wrapper that runs its listener, captures its Set and raises the count by one |
| EventEmitter.SmartAccountEventEmitter.Loop | src/events.ts:182-191 | the loop of an emit skips deleted listeners and calls the next one, whose wrapper first unsubscribes |
| EventEmitter.SmartAccountEventEmitter.Emit | src/events.ts:176-193 | an emit iterates the Set that the event has when it begins |
| EventEmitter.SmartAccountEventEmitter.ListenerThrew | src/events.ts:185-190 | a listener's error goes to the handler if there is one, and the handler's own error leaves the emit |
| EventEmitter.SmartAccountEventEmitter.GetListenerCount | src/events.ts:213-215 | the count is the size of the event's Set |
| WalletAdapter.NotificationsAreTrue | src/wallet-adapter.ts:186-297 | in every run the last notification says whether any wallet is connected |
| WalletAdapter.CanSignIffReachesKit | src/wallet-adapter.ts:307-341 | `canSignFor` accepts an address exactly when asking to sign with it makes that address sign |
| WalletAdapter.ReachesKitIff | src/wallet-adapter.ts:307-331 | a request reaches the wallet kit exactly when it names a connected address, or none or the empty text while a wallet is connected, and then the first one signs |
| WalletAdapter.EmptyAddressSigns | src/wallet-adapter.ts:313-341 | after one wallet connects, `canSignFor` refuses the empty text and `signAuthEntry` signs for it |
| WalletAdapter.ConnectOutcomes | src/wallet-adapter.ts:186-225 | when `connect` throws, returns null or returns a wallet, and which wallet is connected then, under which id and name |
| WalletAdapter.ReturnsIfDone | src/wallet-adapter.ts:128-285 | `init` and `disconnect` return exactly if they have taken effect, and change nothing if they throw |
| WalletAdapter.AdapterStepKeepsOk | src/wallet-adapter.ts:128-297 | wallets are filed under distinct, non-empty addresses, and only after `init` |
| WalletAdapter.StellarWalletsKitAdapter.DoConnect | src/wallet-adapter.ts:186-225 | connecting tracks the wallet and notifies; cancelling returns null; other failures throw, and so does a callback that throws, after the wallet is tracked |
| WalletAdapter.StellarWalletsKitAdapter.DoReconnect | src/wallet-adapter.ts:241-274 | reconnecting tracks the wallet or returns null; with a callback that throws it does both |
| WalletAdapter.StellarWalletsKitAdapter.DoDisconnectByAddress | src/wallet-adapter.ts:292-297 | disconnecting one address deletes it and notifies when none is left |
| ExternalSigners.StoredListIsDistinct | src/external-signers.ts:376-424 | in every run from empty storage the stored list is absent, or non-empty with distinct addresses |
| ExternalSigners.RunKeepsOk | src/external-signers.ts:155-445 | every run of the manager, its adapter and interleaved restores keeps that and the distinctness of the maps |
| ExternalSignerProperties.ListedOnceIffCanSign | src/external-signers.ts:450-508 | `getAll` has exactly one keypair or wallet entry for each address that `canSignFor` accepts and none for others |
| ExternalSignerProperties.SignsIffCanSign | src/external-signers.ts:532-563 | `signAuthEntry` finds a signatory for exactly those addresses, the keypair of that address or the wallet, which never refuses as not connected |
| SignerListings.ListedIff | src/external-signers.ts:450-488 | `getAll` lists exactly the keypairs, the Ed25519 keys and the wallets without a keypair, each under its own data |
| SignerListings.AddedKeypairIsListed | src/external-signers.ts:155-172 | adding a keypair lists it and hides the wallet of its address; nothing else changes |
| SignerListings.AddedEd25519IsListed | src/external-signers.ts:196-212 | adding an Ed25519 key lists it in the place of one with its public key; nothing else changes |
| SignerListings.AddedWalletIsListed | src/external-signers.ts:272-288 | connecting a wallet lists and stores it with the product's id and name in the place of one with its address; nothing else changes |
| SignerListings.ReconnectedWalletIsListed | src/external-signers.ts:322-326 | so does reconnecting it, with the stored id for what the product lacks |
| ExternalSignerProperties.RemoveKeepsExactlyOthers | src/external-signers.ts:346-367 | `remove(a)` leaves exactly the signers and stored entries of other addresses, unchanged and in order |
| ExternalSignerProperties.RemoveStopsOnly | src/external-signers.ts:346-367 | afterwards `canSignFor` differs only for `a`, which it refuses |
| ExternalSignerProperties.RemoveAllClearsIff | src/external-signers.ts:431-443 | when nothing comes between its two halves, `removeAll` clears everything exactly when the adapter can disconnect; where it throws the stored list survives |
| ExternalSignerProperties.FailedRemoveAllComesBack | src/external-signers.ts:431-443 | after a `removeAll` before `init` the next session restores every stored wallet and can sign for it |
| ExternalSignerProperties.RestoreKeepsExactlySucceeded | src/external-signers.ts:305-336 | a restore that nothing interrupts leaves exactly the stored wallets whose reconnection succeeded, in order, and returns one wallet for each |
| InterleavedCalls.StoredAsLastDecided | src/external-signers.ts:305-424 | in every run, whatever comes between the awaits of a restore, an address is stored at the end exactly as the last step that concerns it left it |
| InterleavedCalls.CanSignAsLastDecided | src/external-signers.ts:305-508 | in every such run the manager can sign for an address at the end exactly if the last step that concerns its wallet connected it or the last that concerns its keypair added it |
| InterleavedCalls.StepDecides | src/external-signers.ts:305-443 | the effect of every step on whether any address is stored, connected or has a keypair |
| InterleavedCalls.FailedReconnectDropsSaved | src/external-signers.ts:327-333 | a wallet saved while a restore awaits its address loses the entry when that reconnection fails, and stays connected |
| InterleavedCalls.RemoveIsUndone | src/external-signers.ts:322-367 | `remove` while a restore awaits is undone by a later reconnection, with no entry left |
| InterleavedCalls.RemoveAllIsUndone | src/external-signers.ts:322-443 | so is a `removeAll` that disconnected everything |
| InterleavedCalls.RemoveAllIsUndoneFromStart | src/external-signers.ts:305-443 | this happens in a new session with any one stored wallet that reconnects |
| InterleavedCalls.RemoveStaysIff | src/external-signers.ts:346-367 | after `remove(a)` and any run, `a` cannot be signed for exactly if neither its wallet nor its keypair was last decided otherwise |
| InterleavedCalls.RemoveStays | src/external-signers.ts:346-367 | `remove(a)` stays in force, also in the middle of a restore, while no later answer or keypair is `a` |
| InterleavedCalls.RemoveAllStays | src/external-signers.ts:431-443 | likewise `removeAll`, for every address, when it succeeds and nothing comes between its halves |
| InterleavedCalls.KeypairSurvivesRemoveAll | src/external-signers.ts:431-443 | a keypair that is added while `removeAll` awaits can be signed for afterwards |
| InterleavedCalls.ThrowingCallbackDropsEntry | src/wallet-adapter.ts:256-273 | a reconnection whose callback throws drops the entry of a wallet that is connected |
| ExternalSignerProperties.RestoredWalletsCanSign | src/external-signers.ts:322-335 | the manager can sign for every wallet that a restore returns |
| ExternalSignerProperties.RestoresOnlyOnce | src/external-signers.ts:306-311 | after a restore no later one makes a reconnect call, whatever happened in between |
| ExternalSignerManagers.ExternalSignerManager.RestoreConnections | src/external-signers.ts:305-336 | the loop over the snapshot computes `RestoreLoop`; a second call returns the connected wallets |
| ExternalSignerManagers.ExternalSignerManager.AddFromWallet | src/external-signers.ts:272-288 | a connected wallet is saved, replacing an entry of its address |
| ExternalSignerManagers.ExternalSignerManager.RemoveSigner | src/external-signers.ts:346-367 | the in-place removal computes `Remove` |
| ExternalSignerManagers.ExternalSignerManager.RemoveAllSigners | src/external-signers.ts:431-443 | the in-place clearing computes `RemoveAll`, with the adapter's error |
| ExternalSignerManagers.ExternalSignerManager.GetAllSigners | src/external-signers.ts:450-488 | the three loops list keypairs, Ed25519 signers and the wallets without a keypair |
| DigestSchemes.EveryWalletCanBeSignedFor | src/kit/auth-digest-scheme.ts:155-176 | in every run of deploys and upgrades, under any valid configuration and any built-in table, the wallet's code resolves to its last override or built-in scheme, and after an upgrade it is accepted code |
| DigestSchemes.TableMeaning | src/kit/auth-digest-scheme.ts:120-147 | the table is built exactly when every key is a hash and every value a scheme, and maps a hash to its last override or its built-in scheme |
| DigestSchemes.UpgradesIff | src/kit/auth-digest-scheme.ts:85-108 | a deployed wallet is upgraded exactly to 32 bytes of code that the configuration accepts and that has a scheme, and otherwise stays as it was |
| DigestSchemes.RefusedUpgradeHasReason | src/kit/auth-digest-scheme.ts:85-108 | a refusal names a reason that is true of the target |
| DigestSchemes.DeploysIff | src/kit/auth-digest-scheme.ts:54-83 | a wallet is deployed exactly if the code of the account hash has a scheme, and runs that code |
| DigestSchemes.MakesKitIff | src/kit.ts:446-471 | a configuration is accepted exactly if it has an account hash and valid overrides |
| DigestSchemes.MergeOverrides | src/kit/auth-digest-scheme.ts:127-144 | the loop merges the overrides in order, or fails at the first invalid entry |
| DigestSchemes.BuildAuthDigestSchemeTable | src/kit/auth-digest-scheme.ts:120-147 | the table is that of the canonical builds with the overrides merged in |
| DigestSchemes.KeysAreHashes | src/kit/auth-digest-scheme.ts:42-54 | every key of a table is 64 lower-case hex digits |
| DigestSchemes.HashRoundTrip | src/utils.ts:80-96 | text whose lower-case form is a hash decodes to 32 bytes that print as it |
| DigestSchemes.DeployedCodeAcceptedIff | src/kit.ts:458-468 | deployed code is accepted code exactly when the configured list is empty or names it |
| DigestSchemes.UpgradeTextMeaning | src/kit/auth-digest-scheme.ts:85-108 | an upgrade target given as text is judged as its bytes, and text behind the hex digits is ignored |
| Indexer.CompleteIff | src/indexer.ts:346-391 | a lookup is complete exactly when the response is, every row parses, contract ids are distinct, ledgers are indexed and collision flags are right; the candidates are then a one-to-one image of the rows, in order |
| Indexer.AllPresentIff | src/indexer.ts:352-357 | nothing is filtered out exactly when every row parses, and then nothing is moved |
| Indexer.CandidatesComeFromRows | src/indexer.ts:616-646 | each candidate has every field as a row of the response gives it under that name, and the row is marked complete |
| Indexer.ParsesIff | src/indexer.ts:616-646 | a row is parsed as a candidate exactly when it describes it, field by field |
| Indexer.DescribedRowsAreKept | src/indexer.ts:352-357 | every row that describes a candidate gives it, in its place |
| Indexer.LooksUpIff | src/indexer.ts:297-340 | a response is accepted exactly when it is of schema 2, about the id asked for, with the count of its rows and only known reasons, and what it is accepted as |
| Indexer.CandidatesKeepOrder | src/indexer.ts:352-357 | candidates are in the order of the rows they come from |
| Indexer.CompleteRowsHaveNoReasons | src/indexer.ts:571-597 | a complete lookup rests on rows that are marked complete and give no reasons |
| Indexer.ReadsExactlySafePositives | src/indexer.ts:599-608 | exactly the integers from 1 to 2^53 - 1 are read, as numbers or as their decimal text |
| Indexer.ReadsHashTexts | src/indexer.ts:610-614 | exactly the hex texts of a hash are read as it, in either case, with or without the prefix |

## Left out

- Signatures made by WebAuthn ceremonies are not functions of the digest. The
  coverage results use only that a signature verifies over its digest; order and
  repetition results are about signers that are functions of it.
- Hashing, Ed25519 and P-256 are parameters; only the order of the curve is used.
- The encoding of the host's preimage is a parameter, on what the preimage contains:
  with V2 credentials the address too. That a digest binds an entry
  (`DigestBindsEntry`, `FinalDigestIsOfNoOther`) is shown for encodings that differ
  on different preimages, as XDR does. The network enters as the hash of its
  passphrase.
- The full XDR schema: an entry is its credentials and its call tree, with an
  abstract codec that round-trips. Signature values and the digest preimage are
  encoded concretely; a vector or map that is absent in XDR reads as an empty one,
  and contract instances, whose width varies, are not among the values.
- Text is decoded as the WHATWG Encoding Standard says; other decoders put another
  number of replacement characters for an ill-formed part.
- Ids, sizes and addresses that XDR cannot hold are refused when the payload is
  written here; the program throws a little later, when the entry is serialized.
- CoSigning.TwoCallsAreOne: is about entries whose payload lists no signer twice,
  as every payload written here does; `UpsertCount` says what an upsert does to a
  forged one. The same holds for the other results on order and repetition. They
  are also about entries whose signature XDR carries, as every decoded entry's is
  and every signed one's (`SignedIsCarried`). If two lists share a signer, the
  first call can fail on a signature too long for XDR that the second replaces.
- The caller's list of rule ids and list of signers are values. The program reads
  the ids for the digest and again after all signers have signed, so the results
  assume that the caller does not change the array in between.
- Adapters other than the one in src/wallet-adapter.ts, in particular those without
  `reconnect` or `disconnectByAddress`.
- The base64url package and `Buffer.from` on text follow RFC 4648 with ignored
  trailing characters; their behaviour on characters outside both alphabets is not
  modelled beyond that. The fallback branch of the id normalization is not
  reached by it.
- `toLowerCase` is modelled on ASCII letters. No other character lowers to a hex
  digit, so the tests for hex and hashes are not affected.
- Printed rule ids are exact; beyond 10^21 the program prints exponents, but ids
  that large are refused afterwards.
- The admin path of `assertWalletMutationIntent`, context-rule discovery, wallet
  connection, relayer submission and the RPC client.
- Functions and Sets of the emitter are named by numbers; event data and the text
  of errors are not modelled. An emit is cut into steps where listeners run.
- Callbacks of the wallet adapter are recorded, not run; those of `connect` and
  `reconnect` may throw, those of the two disconnects do not. Which errors count as
  a cancellation is an input.
- Stored text is a list, absent or unreadable; storage that throws on writing is
  not modelled.
- The kit object: only its configured hashes and the guards of deploy and upgrade,
  as values rather than as fields.
- `xlmToStroops`, `validation.ts`, `builders.ts`, `contract-errors.ts`, the relayer
  and the demo: they would add only easy members.
