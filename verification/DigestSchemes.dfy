/**
 * Which digest scheme a wallet's code uses, and why the SDK can always sign for a
 * wallet that it deployed or upgraded.
 */
module DigestSchemes {
  import opened Wrappers
  import opened ByteStrings
  import opened OrderedMaps
  import opened AuthDigests

  type SchemeTable = OrderedMap<string, Scheme>

  datatype ConfigError = MissingAccountHash | KeyNotAHash(key: string) | UnknownSchemeName(key: string)

  function NormalizeHashHex(value: string): Option<string> {
    if IsHash(ToLower(value)) then Some(ToLower(value)) else None
  }

  // -------------------------------------------------------------- the table

  /** A canonical build: the number its code hash stands for, and its scheme. */
  datatype Build = Build(code: nat, scheme: Scheme)

  const KNOWN_BUILDS: seq<Build> := [
    Build(0x1b5f4534a76322da2ad7c745f6900857a6802b0ca79850c35a03561df997785a, LegacyConcat),
    Build(0x203e2970d9fed24fb5fca2e0aeebb3c1e4648b76dd6601567178e6474c9fec6f, LegacyConcat),
    Build(0xc514d35ea67eaea9bfc1fb3327854c0c06111bc1ddebd4fe217c504c1004b9e1, PreimageV1)
  ]

  /** The built-in table, `KNOWN_AUTH_DIGEST_SCHEMES` for `KNOWN_BUILDS`. */
  function BuiltIn(builds: seq<Build>): SchemeTable {
    if builds == [] then []
    else [Entry(FixedHex(builds[0].code, 64), builds[0].scheme)] + BuiltIn(builds[1..])
  }

  /** A configured entry: a hash, in any case, and the name of a scheme. */
  datatype Override = Override(key: string, name: string)

  function CheckOverride(o: Override): Result<Entry<string, Scheme>, ConfigError> {
    match NormalizeHashHex(o.key)
    case None => Err(KeyNotAHash(o.key))
    case Some(hash) =>
      match ParseScheme(o.name)
      case None => Err(UnknownSchemeName(hash))
      case Some(scheme) => Ok(Entry(hash, scheme))
  }

  function Merge(table: SchemeTable, overrides: seq<Override>): Result<SchemeTable, ConfigError>
    decreases |overrides|
  {
    if overrides == [] then Ok(table)
    else
      var entry :- CheckOverride(overrides[0]);
      Merge(Set(table, entry.key, entry.value), overrides[1..])
  }

  /** What `buildAuthDigestSchemeTable` returns, given the builds it knows. */
  function Table(builds: seq<Build>, overrides: seq<Override>): Result<SchemeTable, ConfigError> {
    Merge(BuiltIn(builds), overrides)
  }

  lemma {:induction false} MergeConcat(table: SchemeTable, a: seq<Override>, b: seq<Override>)
    ensures Merge(table, a + b)
         == match Merge(table, a) case Err(e) => Err(e) case Ok(t) => Merge(t, b)
    decreases |a|
  {
    if a == [] {
      assert a + b == b;
    } else if CheckOverride(a[0]).Ok? {
      var entry := CheckOverride(a[0]).value;
      assert (a + b)[1..] == a[1..] + b;
      MergeConcat(Set(table, entry.key, entry.value), a[1..], b);
    }
  }

  lemma MergeSnoc(table: SchemeTable, overrides: seq<Override>, i: nat)
    requires i < |overrides|
    ensures Merge(table, overrides[..i + 1])
         == match Merge(table, overrides[..i])
            case Err(e) => Err(e)
            case Ok(t) =>
              match CheckOverride(overrides[i])
              case Err(e) => Err(e)
              case Ok(entry) => Ok(Set(t, entry.key, entry.value))
  {
    assert overrides[..i + 1] == overrides[..i] + [overrides[i]];
    MergeConcat(table, overrides[..i], [overrides[i]]);
  }

  lemma MergeStops(table: SchemeTable, overrides: seq<Override>, i: nat)
    requires i <= |overrides| && Merge(table, overrides[..i]).Err?
    ensures Merge(table, overrides) == Merge(table, overrides[..i])
  {
    assert overrides == overrides[..i] + overrides[i..];
    MergeConcat(table, overrides[..i], overrides[i..]);
  }

  method MergeOverrides(builtIn: SchemeTable, overrides: seq<Override>)
    returns (result: Result<SchemeTable, ConfigError>)
    ensures result == Merge(builtIn, overrides)
  {
    var table := builtIn;
    for i := 0 to |overrides|
      invariant Merge(builtIn, overrides[..i]) == Ok(table)
    {
      MergeSnoc(builtIn, overrides, i);
      var hash := NormalizeHashHex(overrides[i].key);
      if hash == None {
        MergeStops(builtIn, overrides, i + 1);
        return Err(KeyNotAHash(overrides[i].key));
      }
      var scheme := ParseScheme(overrides[i].name);
      if scheme == None {
        MergeStops(builtIn, overrides, i + 1);
        return Err(UnknownSchemeName(hash.value));
      }
      table := Set(table, hash.value, scheme.value);
    }
    assert overrides[..|overrides|] == overrides;
    return Ok(table);
  }

  method BuildAuthDigestSchemeTable(overrides: seq<Override>) returns (result: Result<SchemeTable, ConfigError>)
    ensures result == Table(KNOWN_BUILDS, overrides)
  {
    result := MergeOverrides(BuiltIn(KNOWN_BUILDS), overrides);
  }

  /** The scheme of the last override for a hash, whatever the case of its key. */
  function LastOverride(overrides: seq<Override>, hash: string): Option<Scheme> {
    if overrides == [] then None
    else
      var n := |overrides| - 1;
      if ToLower(overrides[n].key) == hash then ParseScheme(overrides[n].name)
      else LastOverride(overrides[..n], hash)
  }

  ghost predicate AreValid(overrides: seq<Override>) {
    forall i :: 0 <= i < |overrides| ==> IsHash(ToLower(overrides[i].key)) && ParseScheme(overrides[i].name).Some?
  }

  lemma {:induction false} MergeMeaning(table: SchemeTable, overrides: seq<Override>, hash: string)
    ensures Merge(table, overrides).Ok? <==> AreValid(overrides)
    ensures Merge(table, overrides).Ok? ==>
              Get(Merge(table, overrides).value, hash)
              == match LastOverride(overrides, hash) case Some(s) => Some(s) case None => Get(table, hash)
    decreases |overrides|
  {
    if overrides != [] {
      var n := |overrides| - 1;
      var front, last := overrides[..n], overrides[n];
      assert overrides == front + [last];
      MergeMeaning(table, front, hash);
      MergeConcat(table, front, [last]);
      assert AreValid(overrides) <==> AreValid(front) && IsHash(ToLower(last.key)) && ParseScheme(last.name).Some?;
      if Merge(table, front).Ok? && CheckOverride(last).Ok? {
        var entry := CheckOverride(last).value;
        GetAfterSet(Merge(table, front).value, entry.key, entry.value, hash);
        assert Merge(Merge(table, front).value, [last]) == Ok(Set(Merge(table, front).value, entry.key, entry.value));
      }
    }
  }

  /**
   * The table is built exactly when every key is a hash and every value a scheme.
   * It then maps a hash to its last override, or else as the built-in table does.
   */
  lemma TableMeaning(builds: seq<Build>, overrides: seq<Override>, hash: string)
    ensures Table(builds, overrides).Ok? <==> AreValid(overrides)
    ensures Table(builds, overrides).Ok? ==>
              Get(Table(builds, overrides).value, hash)
              == match LastOverride(overrides, hash) case Some(s) => Some(s) case None => Get(BuiltIn(builds), hash)
  {
    MergeMeaning(BuiltIn(builds), overrides, hash);
  }

  lemma FixedHexIsHash(n: nat)
    ensures IsHash(FixedHex(n, 64))
  {
    FixedHexIsHexOfFixed(n, 32);
    HexOfIsLowerHex(Fixed(n, 32));
  }

  lemma {:induction false} BuiltInKeysAreHashes(builds: seq<Build>, hash: string)
    requires Has(BuiltIn(builds), hash)
    ensures IsHash(hash)
  {
    FixedHexIsHash(builds[0].code);
    if hash != FixedHex(builds[0].code, 64) {
      BuiltInKeysAreHashes(builds[1..], hash);
    }
  }

  lemma {:induction false} LastOverrideIsHash(overrides: seq<Override>, hash: string)
    requires AreValid(overrides) && LastOverride(overrides, hash).Some?
    ensures IsHash(hash)
    decreases |overrides|
  {
    var n := |overrides| - 1;
    if ToLower(overrides[n].key) != hash {
      LastOverrideIsHash(overrides[..n], hash);
    }
  }

  /** Every key of a table is a hash in lower case. */
  lemma KeysAreHashes(builds: seq<Build>, overrides: seq<Override>, hash: string)
    requires Table(builds, overrides).Ok? && Has(Table(builds, overrides).value, hash)
    ensures IsHash(hash)
  {
    TableMeaning(builds, overrides, hash);
    if LastOverride(overrides, hash).Some? {
      LastOverrideIsHash(overrides, hash);
    } else {
      BuiltInKeysAreHashes(builds, hash);
    }
  }

  // ------------------------------------------------------------- the checks

  /** The configured part of the kit. */
  datatype Kit = Kit(accountHash: string, accepted: seq<string>, schemes: SchemeTable)

  function LowerAll(list: seq<string>): (r: seq<string>)
    ensures |r| == |list| && forall i :: 0 <= i < |list| ==> r[i] == ToLower(list[i])
  {
    seq(|list|, i requires 0 <= i < |list| => ToLower(list[i]))
  }

  /** The constructor; an empty list of accepted code counts as not supplied. */
  function MakeKit(builds: seq<Build>, accountHash: string, accepted: seq<string>, overrides: seq<Override>)
    : Result<Kit, ConfigError>
  {
    if accountHash == "" then Err(MissingAccountHash)
    else
      var schemes :- Table(builds, overrides);
      Ok(Kit(accountHash, LowerAll(if accepted != [] then accepted else [accountHash]), schemes))
  }

  /** A configuration is accepted exactly if it has an account hash and valid overrides. */
  lemma MakesKitIff(builds: seq<Build>, accountHash: string, accepted: seq<string>, overrides: seq<Override>)
    ensures MakeKit(builds, accountHash, accepted, overrides).Ok? <==> accountHash != "" && AreValid(overrides)
  {
    TableMeaning(builds, overrides, "");
  }

  /** `assertKnownAuthDigestScheme` does not throw. */
  predicate IsKnown(schemes: SchemeTable, hash: string) {
    Has(schemes, ToLower(hash))
  }

  datatype Target = HexText(text: string) | Raw(bytes: Bytes)

  datatype UpgradeError = NotThirtyTwoBytes(length: nat) | NotAccepted | NoScheme

  function TargetBytes(target: Target): Bytes {
    match target
    case HexText(text) => HexDecode(text)
    case Raw(bytes) => bytes
  }

  /** `assertUpgradeTarget`. */
  function CheckUpgradeTarget(kit: Kit, target: Target): Result<Bytes, UpgradeError> {
    var bytes := TargetBytes(target);
    if |bytes| != 32 then Err(NotThirtyTwoBytes(|bytes|))
    else if HexOf(bytes) !in kit.accepted then Err(NotAccepted)
    else if !IsKnown(kit.schemes, HexOf(bytes)) then Err(NoScheme)
    else Ok(bytes)
  }

  /** `resolveAuthDigestScheme` for an account whose instance runs `code`; None is no WASM. */
  function ResolveScheme(schemes: SchemeTable, code: Option<Bytes>): Option<Scheme> {
    match code
    case None => None
    case Some(hash) => Get(schemes, HexOf(hash))
  }

  // -------------------------------------------------------------- lifecycle

  /** A wallet: the hash of its code once deployed, and whether it was upgraded. */
  datatype Wallet = Undeployed | Deployed(code: Bytes, upgraded: bool)

  datatype Change = Deploy | Upgrade(target: Target)

  /** Changes that the guards refuse leave the wallet as it is. */
  function Apply(kit: Kit, w: Wallet, change: Change): Wallet {
    match change
    case Deploy =>
      if w.Undeployed? && IsKnown(kit.schemes, kit.accountHash)
      then Deployed(HexDecode(kit.accountHash), false) else w
    case Upgrade(target) =>
      if w.Undeployed? then w
      else
        match CheckUpgradeTarget(kit, target)
        case Err(_) => w
        case Ok(code) => Deployed(code, true)
  }

  function ApplyAll(kit: Kit, w: Wallet, changes: seq<Change>): Wallet
    decreases |changes|
  {
    if changes == [] then w else ApplyAll(kit, Apply(kit, w, changes[0]), changes[1..])
  }

  lemma {:induction false} HexDecodeIgnoresCase(s: string)
    ensures HexDecode(ToLower(s)) == HexDecode(s)
    decreases |s|
  {
    if |s| >= 2 {
      HexDecodeIgnoresCase(s[2..]);
      assert ToLower(s)[2..] == ToLower(s[2..]);
      assert ToLower(s)[0] == ToLowerChar(s[0]) && ToLower(s)[1] == ToLowerChar(s[1]);
    }
  }

  /** Text whose lower-case form is a hash decodes to 32 bytes that print as it. */
  lemma HashRoundTrip(s: string)
    requires IsHash(ToLower(s))
    ensures |HexDecode(s)| == 32 && HexOf(HexDecode(s)) == ToLower(s)
  {
    HexDecodeIgnoresCase(s);
    HexOfHexDecode(ToLower(s));
  }

  lemma LowerHashIsItself(b: Bytes)
    ensures ToLower(HexOf(b)) == HexOf(b)
  {
    HexOfIsLowerHex(b);
    assert forall i :: 0 <= i < |HexOf(b)| ==> ToLowerChar(HexOf(b)[i]) == HexOf(b)[i];
  }

  /** The code of a deployed wallet has a scheme, and after an upgrade is accepted code. */
  ghost predicate WalletOk(kit: Kit, w: Wallet) {
    w.Deployed? ==>
      && |w.code| == 32
      && Has(kit.schemes, HexOf(w.code))
      && (if w.upgraded then HexOf(w.code) in kit.accepted else HexOf(w.code) == ToLower(kit.accountHash))
  }

  lemma ApplyKeepsOk(kit: Kit, builds: seq<Build>, overrides: seq<Override>, w: Wallet, change: Change)
    requires Table(builds, overrides) == Ok(kit.schemes) && WalletOk(kit, w)
    ensures WalletOk(kit, Apply(kit, w, change))
  {
    match change
    case Deploy =>
      if IsKnown(kit.schemes, kit.accountHash) {
        KeysAreHashes(builds, overrides, ToLower(kit.accountHash));
        HashRoundTrip(kit.accountHash);
      }
    case Upgrade(target) =>
      LowerHashIsItself(TargetBytes(target));
  }

  lemma {:induction false} ApplyAllKeepsOk(
    kit: Kit, builds: seq<Build>, overrides: seq<Override>, w: Wallet, changes: seq<Change>)
    requires Table(builds, overrides) == Ok(kit.schemes) && WalletOk(kit, w)
    ensures WalletOk(kit, ApplyAll(kit, w, changes))
    decreases |changes|
  {
    if changes != [] {
      ApplyKeepsOk(kit, builds, overrides, w, changes[0]);
      ApplyAllKeepsOk(kit, builds, overrides, Apply(kit, w, changes[0]), changes[1..]);
    }
  }

  /**
   * In every run of deploys and upgrades under any valid configuration and any
   * list of known builds, the code a wallet runs resolves to a scheme: the last
   * override for it or the built-in one. After an upgrade the code is also accepted code.
   */
  lemma EveryWalletCanBeSignedFor(
    builds: seq<Build>, accountHash: string, accepted: seq<string>, overrides: seq<Override>, changes: seq<Change>)
    requires MakeKit(builds, accountHash, accepted, overrides).Ok?
    ensures
      var kit := MakeKit(builds, accountHash, accepted, overrides).value;
      var w := ApplyAll(kit, Undeployed, changes);
      w.Deployed? ==>
        && ResolveScheme(kit.schemes, Some(w.code)).Some?
        && ResolveScheme(kit.schemes, Some(w.code))
        == (match LastOverride(overrides, HexOf(w.code))
            case Some(s) => Some(s)
            case None => Get(BuiltIn(builds), HexOf(w.code)))
        && (w.upgraded ==> HexOf(w.code) in kit.accepted)
  {
    var kit := MakeKit(builds, accountHash, accepted, overrides).value;
    var w := ApplyAll(kit, Undeployed, changes);
    ApplyAllKeepsOk(kit, builds, overrides, Undeployed, changes);
    if w.Deployed? {
      TableMeaning(builds, overrides, HexOf(w.code));
    }
  }

  /** The configuration names the code as one that wallets may be upgraded to. */
  predicate AcceptsUpgrade(accountHash: string, accepted: seq<string>, hash: string) {
    if accepted == [] then ToLower(accountHash) == hash
    else exists i :: 0 <= i < |accepted| && ToLower(accepted[i]) == hash
  }

  /** The configuration or the built-in table says how the code's digests are made. */
  predicate HasScheme(builds: seq<Build>, overrides: seq<Override>, hash: string) {
    LastOverride(overrides, hash).Some? || Has(BuiltIn(builds), hash)
  }

  lemma AcceptedIff(
    builds: seq<Build>, accountHash: string, accepted: seq<string>, overrides: seq<Override>, hash: string)
    requires MakeKit(builds, accountHash, accepted, overrides).Ok?
    ensures hash in MakeKit(builds, accountHash, accepted, overrides).value.accepted
       <==> AcceptsUpgrade(accountHash, accepted, hash)
  {
    var lower := MakeKit(builds, accountHash, accepted, overrides).value.accepted;
    if accepted == [] {
      assert lower == [ToLower(accountHash)];
    } else if i :| 0 <= i < |accepted| && ToLower(accepted[i]) == hash {
      assert lower[i] == hash;
    }
  }

  /**
   * A deployed wallet is upgraded exactly to 32 bytes of code that the
   * configuration accepts and that has a scheme; otherwise it stays as it was.
   */
  lemma UpgradesIff(
    builds: seq<Build>, accountHash: string, accepted: seq<string>, overrides: seq<Override>, w: Wallet, target: Target)
    requires MakeKit(builds, accountHash, accepted, overrides).Ok? && w.Deployed?
    ensures
      var kit := MakeKit(builds, accountHash, accepted, overrides).value;
      var code := match target case HexText(text) => HexDecode(text) case Raw(bytes) => bytes;
      Apply(kit, w, Upgrade(target))
      == if && |code| == 32
            && AcceptsUpgrade(accountHash, accepted, HexOf(code))
            && HasScheme(builds, overrides, HexOf(code))
         then Deployed(code, true) else w
  {
    var hash := HexOf(TargetBytes(target));
    AcceptedIff(builds, accountHash, accepted, overrides, hash);
    TableMeaning(builds, overrides, hash);
    LowerHashIsItself(TargetBytes(target));
  }

  /** An upgrade that is refused names a reason that is true of the target. */
  lemma RefusedUpgradeHasReason(
    builds: seq<Build>, accountHash: string, accepted: seq<string>, overrides: seq<Override>, target: Target)
    requires MakeKit(builds, accountHash, accepted, overrides).Ok?
    ensures
      var kit := MakeKit(builds, accountHash, accepted, overrides).value;
      var code := match target case HexText(text) => HexDecode(text) case Raw(bytes) => bytes;
      match CheckUpgradeTarget(kit, target)
      case Err(NotThirtyTwoBytes(length)) => |code| == length != 32
      case Err(NotAccepted) => !AcceptsUpgrade(accountHash, accepted, HexOf(code))
      case Err(NoScheme) => !HasScheme(builds, overrides, HexOf(code))
      case Ok(checked) => checked == code
  {
    var hash := HexOf(TargetBytes(target));
    AcceptedIff(builds, accountHash, accepted, overrides, hash);
    TableMeaning(builds, overrides, hash);
    LowerHashIsItself(TargetBytes(target));
  }

  /** A wallet is deployed exactly if the code of the account hash has a scheme, and then runs that code. */
  lemma DeploysIff(builds: seq<Build>, accountHash: string, accepted: seq<string>, overrides: seq<Override>)
    requires MakeKit(builds, accountHash, accepted, overrides).Ok?
    ensures
      var kit := MakeKit(builds, accountHash, accepted, overrides).value;
      var w := Apply(kit, Undeployed, Deploy);
      && (w.Deployed? <==> HasScheme(builds, overrides, ToLower(accountHash)))
      && (w.Deployed? ==> HexOf(w.code) == ToLower(accountHash) && !w.upgraded)
  {
    var kit := MakeKit(builds, accountHash, accepted, overrides).value;
    TableMeaning(builds, overrides, ToLower(accountHash));
    ApplyKeepsOk(kit, builds, overrides, Undeployed, Deploy);
  }

  /** The configured list of accepted code is empty or names the hash, in any case. */
  predicate Accepts(accepted: seq<string>, hash: string) {
    accepted == [] || exists i :: 0 <= i < |accepted| && ToLower(accepted[i]) == ToLower(hash)
  }

  /**
   * A freshly deployed wallet runs accepted code exactly when the configured list
   * is empty or names the account hash; the guards do not check that.
   */
  lemma DeployedCodeAcceptedIff(
    builds: seq<Build>, accountHash: string, accepted: seq<string>, overrides: seq<Override>)
    requires MakeKit(builds, accountHash, accepted, overrides).Ok?
    requires Apply(MakeKit(builds, accountHash, accepted, overrides).value, Undeployed, Deploy).Deployed?
    ensures
      var kit := MakeKit(builds, accountHash, accepted, overrides).value;
      HexOf(Apply(kit, Undeployed, Deploy).code) in kit.accepted <==> Accepts(accepted, accountHash)
  {
    var kit := MakeKit(builds, accountHash, accepted, overrides).value;
    ApplyKeepsOk(kit, builds, overrides, Undeployed, Deploy);
    if accepted == [] {
      assert kit.accepted[0] == ToLower(accountHash);
    }
  }

  /**
   * An upgrade to a hash given as text is allowed exactly when its bytes are, and
   * text after the 64 digits is ignored, as `Buffer.from` ignores it.
   */
  lemma UpgradeTextMeaning(kit: Kit, b: Bytes, rest: string)
    requires HexDecode(rest) == []
    ensures CheckUpgradeTarget(kit, HexText(HexOf(b) + rest)) == CheckUpgradeTarget(kit, Raw(b))
  {
    HexDecodeThen(b, rest);
  }

  lemma PairDecodes(first: byte, rest: string)
    ensures HexDecode([HexDigit(first / 16), HexDigit(first % 16)] + rest) == [first] + HexDecode(rest)
  {
    HexDigitValue(first / 16);
    HexDigitValue(first % 16);
    assert ([HexDigit(first / 16), HexDigit(first % 16)] + rest)[2..] == rest;
  }

  lemma {:induction false} HexDecodeThen(b: Bytes, rest: string)
    requires HexDecode(rest) == []
    ensures HexDecode(HexOf(b) + rest) == b
  {
    if b == [] {
      assert HexOf(b) + rest == rest;
    } else {
      HexDecodeThen(b[1..], rest);
      PairDecodes(b[0], HexOf(b[1..]) + rest);
      assert HexOf(b) + rest == [HexDigit(b[0] / 16), HexDigit(b[0] % 16)] + (HexOf(b[1..]) + rest);
    }
  }
}
