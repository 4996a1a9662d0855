/**
 * The indexer client's reading of wallet candidates. Responses are untrusted
 * JSON, and only a `complete` lookup lets a wallet connect.
 */
module Indexer {
  import opened Wrappers
  import opened ByteStrings
  import opened Decimals
  import opened JsNumbers

  /** A value in a response; Undefined is a field that is not there. */
  datatype Json =
    | Undefined
    | Null
    | Boolean(flag: bool)
    | Number(n: JsNumber)
    | Text(text: string)
    | Array(items: seq<Json>)
    | Object(row: Row)

  /** The fields of an object that are read for a contract. */
  datatype Row = Row(
    contractId: Json, birthWasmHash: Json, creationTransactionHash: Json, creationLedger: Json,
    currentWasmHash: Json, derivedAddress: Json, collision: Json, incomplete: Json, incompleteReasons: Json)

  datatype Response = Response(
    schema: Json, complete: Json, indexedThroughLedger: Json, credentialId: Json, count: Json,
    contracts: Json, incompleteReasons: Json)

  /** The strkey check for contract ids, and `Number(...)` of a value. */
  datatype Host = Host(isContract: string -> bool, toNumber: Json -> JsNumber)

  datatype Candidate = Candidate(
    contractId: string, birthWasmHash: string, creationTransactionHash: string, creationLedger: nat,
    currentWasmHash: string, derivedAddress: bool, collision: bool)

  /** A validated response. */
  datatype Lookup = Lookup(complete: bool, indexedThroughLedger: nat, credentialId: string, rows: seq<Row>)

  datatype CandidateLookup = CandidateLookup(complete: bool, indexedThroughLedger: nat, candidates: seq<Candidate>)

  datatype IndexerError = InvalidResponse

  // ---------------------------------------------------------------- scalars

  /** `s.replace(/^0x/, "")`. */
  function WithoutPrefix(s: string): string {
    if |s| >= 2 && s[0] == '0' && s[1] == 'x' then s[2..] else s
  }

  function NormalizeId(credentialId: string): string {
    WithoutPrefix(ToLower(credentialId))
  }

  function NormalizePositiveInteger(value: Json): Option<nat> {
    match value
    case Number(n) =>
      if IsSafeInteger(n) && n.value >= 1.0 then Some(n.value.Floor) else None
    case Text(s) =>
      if s != "" && IsDigits(s) && s[0] != '0' && ParseNat(s) <= MAX_SAFE_INTEGER then Some(ParseNat(s)) else None
    case _ => None
  }

  function NormalizeHash(value: Json): Option<string> {
    if value.Text? && IsHash(WithoutPrefix(ToLower(value.text))) then Some(WithoutPrefix(ToLower(value.text))) else None
  }

  // ----------------------------------------- what the values of fields denote

  /** `value` denotes the ledger `n`: it is the number or its decimal text. */
  predicate IsLedgerText(value: Json, n: nat) {
    && 1 <= n <= MAX_SAFE_INTEGER
    && (value == Number(Finite(n as real)) || value == Text(PrintNat(n)))
  }

  /** `value` is text that denotes the hash `h`, in either case and with or without the prefix. */
  predicate IsHashText(value: Json, h: string) {
    IsHash(h) && value.Text? && (ToLower(value.text) == h || ToLower(value.text) == "0x" + h)
  }

  /** `text` denotes the credential id `id`: its lower-case form, less one prefix. */
  predicate IsIdText(text: string, id: string) {
    var lower := ToLower(text);
    lower == "0x" + id || (lower == id && !("0x" <= lower))
  }

  lemma ReadsNumbers(x: JsNumber, n: nat)
    ensures NormalizePositiveInteger(Number(x)) == Some(n)
       <==> 1 <= n <= MAX_SAFE_INTEGER && x == Finite(n as real)
  {
  }

  lemma ReadsTexts(s: string, n: nat)
    ensures NormalizePositiveInteger(Text(s)) == Some(n)
       <==> 1 <= n <= MAX_SAFE_INTEGER && s == PrintNat(n)
  {
    ParsePrintNat(n);
    PrintNatLeadingDigit(n);
    if s != "" && IsDigits(s) && s[0] != '0' {
      PrintParseNat(s);
    }
  }

  /** Exactly the integers from 1 to 2^53 - 1 are read, as numbers or as their decimal text. */
  lemma ReadsExactlySafePositives(value: Json, n: nat)
    ensures NormalizePositiveInteger(value) == Some(n) <==> IsLedgerText(value, n)
  {
    match value
    case Number(x) => ReadsNumbers(x, n);
    case Text(s) => ReadsTexts(s, n);
    case _ =>
  }

  lemma LowerHexIsItself(h: string)
    requires IsLowerHex(h)
    ensures ToLower(h) == h && WithoutPrefix(h) == h
  {
    assert forall i :: 0 <= i < |h| ==> ToLowerChar(h[i]) == h[i];
  }

  /** Exactly the hex texts of a hash are read as it, in either case and with or without the prefix. */
  lemma ReadsHashTexts(value: Json, h: string)
    ensures NormalizeHash(value) == Some(h) <==> IsHashText(value, h)
  {
    if value.Text? {
      var lower := ToLower(value.text);
      if IsHash(h) {
        LowerHexIsItself(h);
        assert ("0x" + h)[2..] == h;
      }
      assert WithoutPrefix(lower) == lower || lower == "0x" + WithoutPrefix(lower);
    }
  }

  lemma ReadsIdTexts(text: string, id: string)
    ensures NormalizeId(text) == id <==> IsIdText(text, id)
  {
    var lower := ToLower(text);
    assert WithoutPrefix(lower) == lower || lower == "0x" + WithoutPrefix(lower);
    assert ("0x" + id)[2..] == id;
    assert |lower| >= 2 && lower[0] == '0' && lower[1] == 'x' ==> lower[..2] == "0x";
  }

  // ------------------------------------------------------------- validation

  const CANDIDATE_REASONS: set<string> := {
    "missing_birth", "rpc_unchecked", "signer_unconfirmed", "instance_missing", "wasm_unresolved",
    "inconsistent_creation_ledger"
  }

  const LOOKUP_REASONS: set<string> := {"reducer_errors", "index_behind"}

  predicate IsAllowedReasonList(value: Json, allowed: set<string>) {
    && value.Array?
    && |value.items| > 0
    && forall i :: 0 <= i < |value.items| ==> value.items[i].Text? && value.items[i].text in allowed
  }

  predicate HasValidLookupReasons(complete: bool, reasons: Json) {
    reasons == Undefined || (!complete && IsAllowedReasonList(reasons, LOOKUP_REASONS))
  }

  predicate HasValidRowReasons(contract: Json) {
    && contract.Object?
    && (if contract.row.incomplete == Boolean(true)
        then IsAllowedReasonList(contract.row.incompleteReasons, CANDIDATE_REASONS)
        else contract.row.incompleteReasons == Undefined)
  }

  predicate AreRows(contracts: seq<Json>) {
    forall i :: 0 <= i < |contracts| ==> HasValidRowReasons(contracts[i])
  }

  function RowsOf(contracts: seq<Json>): (rows: seq<Row>)
    requires AreRows(contracts)
    ensures |rows| == |contracts|
    ensures forall i :: 0 <= i < |rows| ==> contracts[i] == Object(rows[i])
  {
    seq(|contracts|, i requires 0 <= i < |contracts| => contracts[i].row)
  }

  /** `lookupByCredentialId` on the response. */
  function LookupByCredentialId(host: Host, credentialId: string, r: Response): Result<Lookup, IndexerError> {
    var id := NormalizeId(credentialId);
    var indexed := NormalizePositiveInteger(r.indexedThroughLedger);
    var count := host.toNumber(r.count);
    if
      || r.schema != Number(Finite(2.0))
      || !r.complete.Boolean?
      || indexed == None
      || !r.credentialId.Text?
      || NormalizeId(r.credentialId.text) != id
      || !r.contracts.Array?
      || !IsSafeInteger(count)
      || count.value != |r.contracts.items| as real
      || !HasValidLookupReasons(r.complete.flag, r.incompleteReasons)
      || !AreRows(r.contracts.items)
    then Err(InvalidResponse)
    else Ok(Lookup(r.complete.flag, indexed.value, id, RowsOf(r.contracts.items)))
  }

  function ParseCandidate(host: Host, row: Row): Option<Candidate> {
    var birth := NormalizeHash(row.birthWasmHash);
    var transaction := NormalizeHash(row.creationTransactionHash);
    var ledger := NormalizePositiveInteger(row.creationLedger);
    var current := NormalizeHash(row.currentWasmHash);
    if
      || !row.contractId.Text? || !host.isContract(row.contractId.text)
      || birth == None || transaction == None || ledger == None || current == None
      || !row.derivedAddress.Boolean? || !row.collision.Boolean?
      || row.incomplete != Boolean(false)
    then None
    else
      Some(Candidate(
        row.contractId.text, birth.value, transaction.value, ledger.value, current.value,
        row.derivedAddress.flag, row.collision.flag))
  }

  /** `contracts.map(parseWalletCandidate)`. */
  function Parsed(host: Host, rows: seq<Row>): (parsed: seq<Option<Candidate>>)
    ensures |parsed| == |rows|
    ensures forall i :: 0 <= i < |rows| ==> parsed[i] == ParseCandidate(host, rows[i])
  {
    seq(|rows|, i requires 0 <= i < |rows| => ParseCandidate(host, rows[i]))
  }

  /** `.filter((candidate) => candidate !== undefined)`. */
  function Present<T>(parsed: seq<Option<T>>): (present: seq<T>)
    ensures |present| <= |parsed|
  {
    if parsed == [] then []
    else (if parsed[0].Some? then [parsed[0].value] else []) + Present(parsed[1..])
  }

  function ParseAll(host: Host, rows: seq<Row>): seq<Candidate> {
    Present(Parsed(host, rows))
  }

  predicate SomeDerived(candidates: seq<Candidate>, derived: bool) {
    exists i :: 0 <= i < |candidates| && candidates[i].derivedAddress == derived
  }

  function ContractIds(candidates: seq<Candidate>): set<string> {
    set i | 0 <= i < |candidates| :: candidates[i].contractId
  }

  /** The `complete` flag that `lookupWalletCandidates` computes. */
  predicate IsComplete(lookup: Lookup, candidates: seq<Candidate>) {
    var collisionExpected := SomeDerived(candidates, true) && SomeDerived(candidates, false);
    && lookup.complete
    && |candidates| == |lookup.rows|
    && |ContractIds(candidates)| == |candidates|
    && forall i :: 0 <= i < |candidates| ==>
                     && candidates[i].creationLedger <= lookup.indexedThroughLedger
                     && candidates[i].collision == collisionExpected
  }

  /** `lookupWalletCandidates` on the response. */
  function LookupWalletCandidates(host: Host, credentialId: string, r: Response)
    : Result<CandidateLookup, IndexerError>
  {
    var lookup :- LookupByCredentialId(host, NormalizeId(credentialId), r);
    var candidates := ParseAll(host, lookup.rows);
    Ok(CandidateLookup(IsComplete(lookup, candidates), lookup.indexedThroughLedger, candidates))
  }

  // -------------------------------------------- what is accepted, and as what

  /** The row has every field of the candidate under its own name, and is marked complete. */
  predicate Describes(host: Host, row: Row, c: Candidate) {
    && row.contractId == Text(c.contractId) && host.isContract(c.contractId)
    && IsHashText(row.birthWasmHash, c.birthWasmHash)
    && IsHashText(row.creationTransactionHash, c.creationTransactionHash)
    && IsLedgerText(row.creationLedger, c.creationLedger)
    && IsHashText(row.currentWasmHash, c.currentWasmHash)
    && row.derivedAddress == Boolean(c.derivedAddress)
    && row.collision == Boolean(c.collision)
    && row.incomplete == Boolean(false)
  }

  /** A row is parsed as a candidate exactly when it describes it. */
  lemma ParsesIff(host: Host, row: Row, c: Candidate)
    ensures ParseCandidate(host, row) == Some(c) <==> Describes(host, row, c)
  {
    ReadsHashTexts(row.birthWasmHash, c.birthWasmHash);
    ReadsHashTexts(row.creationTransactionHash, c.creationTransactionHash);
    ReadsHashTexts(row.currentWasmHash, c.currentWasmHash);
    ReadsExactlySafePositives(row.creationLedger, c.creationLedger);
  }

  /** A row gives reasons exactly when it is marked incomplete, and only known ones. */
  predicate HasKnownReasons(row: Row) {
    if row.incomplete == Boolean(true) then
      IsAllowedReasonList(
        row.incompleteReasons,
        {"missing_birth", "rpc_unchecked", "signer_unconfirmed", "instance_missing", "wasm_unresolved",
         "inconsistent_creation_ledger"})
    else row.incompleteReasons == Undefined
  }

  /** The response is of schema 2, about this id, and consistent; it says what `lookup` says. */
  predicate Answers(host: Host, credentialId: string, r: Response, lookup: Lookup) {
    && r.schema == Number(Finite(2.0))
    && r.complete == Boolean(lookup.complete)
    && IsLedgerText(r.indexedThroughLedger, lookup.indexedThroughLedger)
    && r.credentialId.Text? && IsIdText(r.credentialId.text, lookup.credentialId)
    && IsIdText(credentialId, lookup.credentialId)
    && r.contracts.Array? && |r.contracts.items| == |lookup.rows| <= MAX_SAFE_INTEGER
    && host.toNumber(r.count) == Finite(|lookup.rows| as real)
    && (forall i :: 0 <= i < |lookup.rows| ==>
          r.contracts.items[i] == Object(lookup.rows[i]) && HasKnownReasons(lookup.rows[i]))
    && (r.incompleteReasons != Undefined ==>
          !lookup.complete && IsAllowedReasonList(r.incompleteReasons, {"reducer_errors", "index_behind"}))
  }

  /** A response is accepted as a lookup exactly when it answers so. */
  lemma LooksUpIff(host: Host, credentialId: string, r: Response, lookup: Lookup)
    ensures LookupByCredentialId(host, credentialId, r) == Ok(lookup) <==> Answers(host, credentialId, r, lookup)
  {
    ReadsIdTexts(credentialId, lookup.credentialId);
    ReadsExactlySafePositives(r.indexedThroughLedger, lookup.indexedThroughLedger);
    if r.credentialId.Text? {
      ReadsIdTexts(r.credentialId.text, lookup.credentialId);
    }
    if r.contracts.Array? {
      RowsAgree(r.contracts.items, lookup.rows);
    }
  }

  lemma RowsAgree(contracts: seq<Json>, rows: seq<Row>)
    ensures AreRows(contracts) && RowsOf(contracts) == rows <==>
              && |contracts| == |rows|
              && forall i :: 0 <= i < |rows| ==> contracts[i] == Object(rows[i]) && HasKnownReasons(rows[i])
  {
    forall i | 0 <= i < |contracts|
      ensures HasValidRowReasons(contracts[i]) <==> contracts[i].Object? && HasKnownReasons(contracts[i].row)
    {
    }
    if |contracts| == |rows| && forall i :: 0 <= i < |rows| ==>
                                              contracts[i] == Object(rows[i]) && HasKnownReasons(rows[i]) {
      assert AreRows(contracts);
      assert RowsOf(contracts) == rows;
    }
  }

  // ------------------------------------------------------------ the verdict

  /** Nothing is filtered out exactly when all is present, and then nothing is moved. */
  lemma {:induction false} AllPresentIff<T>(parsed: seq<Option<T>>)
    ensures |Present(parsed)| == |parsed| <==> forall i :: 0 <= i < |parsed| ==> parsed[i].Some?
    ensures |Present(parsed)| == |parsed| ==>
              forall i :: 0 <= i < |parsed| ==> parsed[i] == Some(Present(parsed)[i])
  {
    if parsed != [] {
      AllPresentIff(parsed[1..]);
      assert forall i :: 1 <= i < |parsed| ==> parsed[i] == parsed[1..][i - 1];
      assert forall i :: 0 <= i < |parsed[1..]| ==> parsed[1..][i] == parsed[i + 1];
    }
  }

  /** The position that the k-th element left comes from. */
  function Source<T>(parsed: seq<Option<T>>, k: nat): (i: nat)
    requires k < |Present(parsed)|
    ensures k <= i < |parsed| && parsed[i] == Some(Present(parsed)[k])
  {
    if parsed[0].None? then 1 + Source(parsed[1..], k)
    else if k == 0 then 0
    else 1 + Source(parsed[1..], k - 1)
  }

  /** What is left is in the order of the input. */
  lemma {:induction false} SourceIncreases<T>(parsed: seq<Option<T>>, k: nat, l: nat)
    requires k < l < |Present(parsed)|
    ensures Source(parsed, k) < Source(parsed, l)
  {
    if parsed[0].None? {
      SourceIncreases(parsed[1..], k, l);
    } else if k > 0 {
      SourceIncreases(parsed[1..], k - 1, l - 1);
    }
  }

  predicate DistinctIds(candidates: seq<Candidate>) {
    forall i, j :: 0 <= i < j < |candidates| ==> candidates[i].contractId != candidates[j].contractId
  }

  lemma LastId(candidates: seq<Candidate>)
    requires candidates != []
    ensures
      var n := |candidates| - 1;
      var front, last := candidates[..n], candidates[n].contractId;
      && ContractIds(candidates) == ContractIds(front) + {last}
      && (DistinctIds(candidates) <==> DistinctIds(front) && last !in ContractIds(front))
  {
    var n := |candidates| - 1;
    var front, last := candidates[..n], candidates[n].contractId;
    assert forall i :: 0 <= i < n ==> front[i] == candidates[i];
    if last in ContractIds(front) {
      var i :| 0 <= i < n && front[i].contractId == last;
      assert candidates[i].contractId == candidates[n].contractId;
    }
  }

  lemma {:induction false} IdCount(candidates: seq<Candidate>)
    ensures |ContractIds(candidates)| <= |candidates|
    ensures |ContractIds(candidates)| == |candidates| <==> DistinctIds(candidates)
  {
    if candidates != [] {
      IdCount(candidates[..|candidates| - 1]);
      LastId(candidates);
    }
  }

  /** What a response must be like for its candidates to count as all there are. */
  ghost predicate IsCompleteAnswer(host: Host, lookup: Lookup, candidates: seq<Candidate>) {
    && lookup.complete
    && |candidates| == |lookup.rows|
    && (forall i :: 0 <= i < |candidates| ==> Describes(host, lookup.rows[i], candidates[i]))
    && DistinctIds(candidates)
    && (forall i :: 0 <= i < |candidates| ==> candidates[i].creationLedger <= lookup.indexedThroughLedger)
    && (forall i :: 0 <= i < |candidates| ==>
          (candidates[i].collision <==> SomeDerived(candidates, true) && SomeDerived(candidates, false)))
  }

  lemma VerdictIff(host: Host, lookup: Lookup)
    ensures IsComplete(lookup, ParseAll(host, lookup.rows))
       <==> IsCompleteAnswer(host, lookup, ParseAll(host, lookup.rows))
  {
    var candidates := ParseAll(host, lookup.rows);
    AllPresentIff(Parsed(host, lookup.rows));
    IdCount(candidates);
    forall i | 0 <= i < |candidates| && i < |lookup.rows|
      ensures ParseCandidate(host, lookup.rows[i]) == Some(candidates[i])
         <==> Describes(host, lookup.rows[i], candidates[i])
    {
      ParsesIff(host, lookup.rows[i], candidates[i]);
    }
  }

  /**
   * A lookup is complete exactly when the validated response is complete, every
   * row parses, the contract ids are pairwise distinct, every creation ledger is
   * within the indexed ledger, and every collision flag says whether a derived
   * and a non-derived candidate both exist. The candidates are then a one-to-one
   * image of the rows, in order.
   */
  lemma CompleteIff(host: Host, credentialId: string, r: Response)
    requires LookupWalletCandidates(host, credentialId, r).Ok?
    ensures
      var lookup := LookupByCredentialId(host, NormalizeId(credentialId), r);
      var found := LookupWalletCandidates(host, credentialId, r).value;
      && lookup.Ok?
      && Answers(host, NormalizeId(credentialId), r, lookup.value)
      && found.indexedThroughLedger == lookup.value.indexedThroughLedger
      && found.candidates == ParseAll(host, lookup.value.rows)
      && (found.complete <==> IsCompleteAnswer(host, lookup.value, found.candidates))
  {
    var lookup := LookupByCredentialId(host, NormalizeId(credentialId), r).value;
    LooksUpIff(host, NormalizeId(credentialId), r, lookup);
    VerdictIff(host, lookup);
  }

  /** No candidate is invented: each is described by a row of the response. */
  lemma CandidatesComeFromRows(host: Host, rows: seq<Row>, k: nat)
    requires k < |ParseAll(host, rows)|
    ensures Describes(host, rows[Source(Parsed(host, rows), k)], ParseAll(host, rows)[k])
  {
    ParsesIff(host, rows[Source(Parsed(host, rows), k)], ParseAll(host, rows)[k]);
  }

  /** And none is left out: every row that describes one gives it, in its place. */
  lemma {:induction false} DescribedRowsAreKept(host: Host, rows: seq<Row>, i: nat, c: Candidate) returns (k: nat)
    requires i < |rows| && Describes(host, rows[i], c)
    ensures k < |ParseAll(host, rows)| && Source(Parsed(host, rows), k) == i && ParseAll(host, rows)[k] == c
  {
    ParsesIff(host, rows[i], c);
    k := Position(Parsed(host, rows), i);
  }

  lemma {:induction false} Position<T>(parsed: seq<Option<T>>, i: nat) returns (k: nat)
    requires i < |parsed| && parsed[i].Some?
    ensures k < |Present(parsed)| && Source(parsed, k) == i
  {
    if i == 0 {
      k := 0;
    } else {
      k := Position(parsed[1..], i - 1);
      if parsed[0].Some? {
        k := k + 1;
      }
    }
  }

  /** Candidates are in the order of the rows they come from. */
  lemma CandidatesKeepOrder(host: Host, rows: seq<Row>, k: nat, l: nat)
    requires k < l < |ParseAll(host, rows)|
    ensures Source(Parsed(host, rows), k) < Source(Parsed(host, rows), l) < |rows|
  {
    SourceIncreases(Parsed(host, rows), k, l);
  }

  /** A complete lookup rests on rows whose indexing is complete and without reasons. */
  lemma CompleteRowsHaveNoReasons(host: Host, credentialId: string, r: Response, i: nat)
    requires LookupWalletCandidates(host, credentialId, r).Ok?
    requires LookupWalletCandidates(host, credentialId, r).value.complete
    requires r.contracts.Array? && i < |r.contracts.items|
    ensures r.complete == Boolean(true) && r.incompleteReasons == Undefined
    ensures r.contracts.items[i].Object?
    ensures r.contracts.items[i].row.incomplete == Boolean(false)
    ensures r.contracts.items[i].row.incompleteReasons == Undefined
  {
    CompleteIff(host, credentialId, r);
    var lookup := LookupByCredentialId(host, NormalizeId(credentialId), r).value;
    assert r.contracts.items[i] == Object(lookup.rows[i]);
    assert HasValidRowReasons(r.contracts.items[i]);
    assert Describes(host, lookup.rows[i], LookupWalletCandidates(host, credentialId, r).value.candidates[i]);
  }
}
