/**
 * `writeAuthPayload`: signer entries sorted in host order. The written value is
 * a canonical form of the rule ids and the signer-to-signature map.
 */
module CanonicalPayloads {
  import opened Wrappers
  import opened ByteStrings
  import opened OrderedMaps
  import opened Signers
  import opened Utf8
  import opened ScVals
  import opened HostOrder
  import opened AuthPayloads

  // ---------------------------------------------------------------- sorting

  /** Stable insertion, as `Array.prototype.sort` places equal keys. */
  function Insert(e: ScMapEntry, sorted: seq<ScMapEntry>): seq<ScMapEntry> {
    if sorted == [] || Compare(e.key, sorted[0].key) <= 0 then [e] + sorted
    else [sorted[0]] + Insert(e, sorted[1..])
  }

  /** `entries.sort((a, b) => compareScVal(a.key(), b.key()))`. */
  function Sort(entries: seq<ScMapEntry>): seq<ScMapEntry> {
    if entries == [] then [] else Insert(entries[0], Sort(entries[1..]))
  }

  /** A value that XDR can carry and whose texts the comparison can tell apart. */
  predicate IsKey(v: ScVal) {
    IsEncodable(v) && HasWellFormedTexts(v)
  }

  ghost predicate AreKeys(entries: seq<ScMapEntry>) {
    forall e :: e in entries ==> IsKey(e.key)
  }

  /** Among such keys the host order is zero only on equal ones. */
  lemma CompareKeys(a: ScVal, b: ScVal)
    requires IsKey(a) && IsKey(b)
    ensures Compare(a, b) == 0 <==> a == b
    ensures Opposite(Compare(a, b), Compare(b, a))
  {
    CompareSign(a, b);
  }

  /** What the host demands of a map: keys strictly increasing. */
  ghost predicate StrictlySorted(entries: seq<ScMapEntry>) {
    forall i, j :: 0 <= i < j < |entries| ==> Compare(entries[i].key, entries[j].key) < 0
  }

  ghost predicate DistinctEntryKeys(entries: seq<ScMapEntry>) {
    forall i, j :: 0 <= i < j < |entries| ==> entries[i].key != entries[j].key
  }

  lemma {:induction false} InsertMembers(e: ScMapEntry, sorted: seq<ScMapEntry>)
    ensures forall x :: x in Insert(e, sorted) <==> x == e || x in sorted
    ensures |Insert(e, sorted)| == |sorted| + 1
  {
    if sorted != [] && Compare(e.key, sorted[0].key) > 0 {
      InsertMembers(e, sorted[1..]);
      assert sorted == [sorted[0]] + sorted[1..];
    }
  }

  lemma {:induction false} InsertKeepsSorted(e: ScMapEntry, sorted: seq<ScMapEntry>)
    requires StrictlySorted(sorted) && AreKeys(sorted) && IsKey(e.key)
    requires forall x :: x in sorted ==> x.key != e.key
    ensures StrictlySorted(Insert(e, sorted))
  {
    if sorted != [] {
      var head, tail := sorted[0], sorted[1..];
      CompareKeys(e.key, head.key);
      if Compare(e.key, head.key) < 0 {
        forall x | x in tail
          ensures Compare(e.key, x.key) < 0
        {
          CompareTransitive(e.key, head.key, x.key);
        }
        ConsSorted(e, sorted);
      } else {
        InsertKeepsSorted(e, tail);
        InsertMembers(e, tail);
        ConsSorted(head, Insert(e, tail));
      }
    }
  }

  lemma ConsSorted(e: ScMapEntry, sorted: seq<ScMapEntry>)
    requires StrictlySorted(sorted)
    requires forall x :: x in sorted ==> Compare(e.key, x.key) < 0
    ensures StrictlySorted([e] + sorted)
  {
  }

  lemma {:induction false} SortMembers(entries: seq<ScMapEntry>)
    ensures forall x :: x in Sort(entries) <==> x in entries
    ensures |Sort(entries)| == |entries|
  {
    if entries != [] {
      SortMembers(entries[1..]);
      InsertMembers(entries[0], Sort(entries[1..]));
      assert entries == [entries[0]] + entries[1..];
    }
  }

  lemma {:induction false} SortSorts(entries: seq<ScMapEntry>)
    requires AreKeys(entries) && DistinctEntryKeys(entries)
    ensures StrictlySorted(Sort(entries))
  {
    if entries != [] {
      SortSorts(entries[1..]);
      SortMembers(entries[1..]);
      InsertKeepsSorted(entries[0], Sort(entries[1..]));
    }
  }

  /** Strictly sorted lists with the same members are the same list. */
  lemma {:induction false} SortedIsUnique(a: seq<ScMapEntry>, b: seq<ScMapEntry>)
    requires StrictlySorted(a) && StrictlySorted(b) && AreKeys(a)
    requires forall x :: x in a <==> x in b
    ensures a == b
  {
    assert b != [] ==> b[0] in b;
    if a != [] {
      assert a[0] in b && b != [] && b[0] in a;
      if a[0] != b[0] {
        CompareKeys(a[0].key, b[0].key);
        assert false;
      }
      SortedTailMembers(a);
      SortedTailMembers(b);
      SortedIsUnique(a[1..], b[1..]);
    }
  }

  lemma SortedTailMembers(a: seq<ScMapEntry>)
    requires a != [] && StrictlySorted(a) && IsKey(a[0].key)
    ensures forall x :: x in a[1..] <==> x in a && x != a[0]
  {
    CompareKeys(a[0].key, a[0].key);
    assert a == [a[0]] + a[1..];
  }

  // ---------------------------------------------------------------- writing

  ghost predicate AllWritable(codec: AddressCodec, m: SignatureMap) {
    forall i :: 0 <= i < |m| ==> SignerToScVal(codec, m[i].key.signer).Some?
  }

  function EncodeEntries(codec: AddressCodec, m: SignatureMap): (r: Option<seq<ScMapEntry>>)
    ensures r.Some? <==> AllWritable(codec, m)
    ensures r.Some? ==> |r.value| == |m|
    ensures r.Some? ==> forall i :: 0 <= i < |m| ==>
                          r.value[i] == ScMapEntry(SignerToScVal(codec, m[i].key.signer).value, ScvBytes(m[i].value))
  {
    if m == [] then Some([])
    else
      match (SignerToScVal(codec, m[0].key.signer), EncodeEntries(codec, m[1..]))
      case (Some(key), Some(rest)) => Some([ScMapEntry(key, ScvBytes(m[0].value))] + rest)
      case _ => None
  }

  function WriteRuleIds(ids: seq<nat>): (items: seq<ScVal>)
    ensures |items| == |ids|
  {
    seq(|ids|, i requires 0 <= i < |ids| => ScvU32(ids[i]))
  }

  function PayloadValue(ids: seq<nat>, sorted: seq<ScMapEntry>): ScVal {
    ScvMap([
      ScMapEntry(ScvSymbol(RULE_IDS), ScvVec(WriteRuleIds(ids))),
      ScMapEntry(ScvSymbol(SIGNERS), ScvMap(sorted))
    ])
  }

  /** `writeAuthPayload`; None where it throws or XDR cannot carry the value. */
  function Write(codec: AddressCodec, payload: AuthPayload): Option<ScVal> {
    match EncodeEntries(codec, payload.signers)
    case None => None
    case Some(entries) =>
      var value := PayloadValue(payload.ruleIds, Sort(entries));
      if IsEncodable(value) then Some(value) else None
  }

  ghost function Encoded(codec: AddressCodec, m: SignatureMap): (entries: seq<ScMapEntry>)
    requires AllWritable(codec, m)
    ensures |entries| == |m|
  {
    EncodeEntries(codec, m).value
  }

  // ------------------------------------------------- entries and their meaning

  lemma {:induction false} CountAt(m: SignatureMap, i: nat)
    requires i < |m|
    ensures Count(m, m[i].key.signer) > 0
  {
    if i > 0 {
      CountAt(m[1..], i - 1);
    }
  }

  lemma NoDuplicatesAt(m: SignatureMap, i: nat, j: nat)
    requires NoDuplicates(m) && i < j < |m|
    ensures m[i].key.signer != m[j].key.signer
  {
    assert m == m[..j] + m[j..];
    CountConcat(m[..j], m[j..], m[i].key.signer);
    CountAt(m[..j], i);
    CountAt(m[j..], 0);
    assert Count(m, m[i].key.signer) <= 1;
  }

  lemma {:induction false} NotCounted(m: SignatureMap, signer: Signer)
    requires forall i :: 0 <= i < |m| ==> m[i].key.signer != signer
    ensures Count(m, signer) == 0
  {
    if m != [] {
      assert forall i :: 0 <= i < |m[1..]| ==> m[1..][i] == m[i + 1];
      NotCounted(m[1..], signer);
    }
  }

  lemma {:induction false} NoDuplicatesIf(m: SignatureMap)
    requires forall i, j :: 0 <= i < j < |m| ==> m[i].key.signer != m[j].key.signer
    ensures NoDuplicates(m)
  {
    if m != [] {
      NoDuplicatesIf(m[1..]);
      assert forall i :: 0 <= i < |m[1..]| ==> m[1..][i] == m[i + 1];
      NotCounted(m[1..], m[0].key.signer);
      forall signer
        ensures Count(m, signer) <= 1
      {
        assert Count(m[1..], signer) <= 1;
      }
    }
  }

  lemma {:induction false} FindSigner(m: SignatureMap, signer: Signer) returns (i: nat)
    requires Count(m, signer) > 0
    ensures i < |m| && m[i].key.signer == signer
  {
    if m[0].key.signer == signer {
      i := 0;
    } else {
      i := FindSigner(m[1..], signer);
      i := i + 1;
    }
  }

  lemma {:induction false} SignaturesAt(m: SignatureMap, i: nat)
    requires NoDuplicates(m) && i < |m|
    ensures m[i].key.signer in Signatures(m)
    ensures Signatures(m)[m[i].key.signer] == m[i].value
  {
    var n := |m| - 1;
    if i < n {
      NoDuplicatesAt(m, i, n);
      FrontNoDuplicates(m);
      SignaturesAt(m[..n], i);
    }
  }

  lemma FrontNoDuplicates(m: SignatureMap)
    requires m != [] && NoDuplicates(m)
    ensures NoDuplicates(m[..|m| - 1])
  {
    var front, last := m[..|m| - 1], m[|m| - 1..];
    assert m == front + last;
    forall signer
      ensures Count(front, signer) <= 1
    {
      CountConcat(front, last, signer);
      assert Count(m, signer) <= 1;
    }
  }

  lemma SignatureIndex(m: SignatureMap, signer: Signer) returns (i: nat)
    requires NoDuplicates(m) && signer in Signatures(m)
    ensures i < |m| && m[i].key.signer == signer && m[i].value == Signatures(m)[signer]
  {
    SignaturesHas(m, signer);
    i := FindSigner(m, signer);
    SignaturesAt(m, i);
  }

  /** The encoded entries list exactly the signatures of the payload. */
  lemma EncodedMember(codec: AddressCodec, m: SignatureMap, signer: Signer, signature: Bytes)
    requires IsAddressCodec(codec) && AllWritable(codec, m) && NoDuplicates(m)
    requires SignerToScVal(codec, signer).Some?
    ensures ScMapEntry(SignerToScVal(codec, signer).value, ScvBytes(signature)) in Encoded(codec, m)
       <==> signer in Signatures(m) && Signatures(m)[signer] == signature
  {
    var x := ScMapEntry(SignerToScVal(codec, signer).value, ScvBytes(signature));
    if x in Encoded(codec, m) {
      var i :| 0 <= i < |m| && Encoded(codec, m)[i] == x;
      SignerToScValInjective(codec, m[i].key.signer, signer);
      SignaturesAt(m, i);
    }
    if signer in Signatures(m) && Signatures(m)[signer] == signature {
      var i := SignatureIndex(m, signer);
      assert Encoded(codec, m)[i] == x;
    }
  }

  lemma EncodedKeysDistinct(codec: AddressCodec, m: SignatureMap)
    requires IsAddressCodec(codec) && AllWritable(codec, m)
    ensures NoDuplicates(m) <==> DistinctEntryKeys(Encoded(codec, m))
  {
    var entries := Encoded(codec, m);
    if NoDuplicates(m) {
      forall i, j | 0 <= i < j < |m|
        ensures entries[i].key != entries[j].key
      {
        NoDuplicatesAt(m, i, j);
        if entries[i].key == entries[j].key {
          SignerToScValInjective(codec, m[i].key.signer, m[j].key.signer);
        }
      }
    }
    if DistinctEntryKeys(entries) {
      forall i, j | 0 <= i < j < |m|
        ensures m[i].key.signer != m[j].key.signer
      {
        assert entries[i].key != entries[j].key;
      }
      NoDuplicatesIf(m);
    }
  }

  lemma SameSignaturesSameMembers(codec: AddressCodec, m: SignatureMap, n: SignatureMap)
    requires IsAddressCodec(codec) && AllWritable(codec, m) && AllWritable(codec, n)
    requires NoDuplicates(m) && NoDuplicates(n)
    ensures Signatures(m) == Signatures(n)
       <==> forall x :: x in Encoded(codec, m) <==> x in Encoded(codec, n)
  {
    if Signatures(m) == Signatures(n) {
      forall x
        ensures x in Encoded(codec, m) <==> x in Encoded(codec, n)
      {
        if i :| 0 <= i < |m| && Encoded(codec, m)[i] == x {
          EncodedMember(codec, m, m[i].key.signer, m[i].value);
          EncodedMember(codec, n, m[i].key.signer, m[i].value);
        }
        if i :| 0 <= i < |n| && Encoded(codec, n)[i] == x {
          EncodedMember(codec, n, n[i].key.signer, n[i].value);
          EncodedMember(codec, m, n[i].key.signer, n[i].value);
        }
      }
    }
    if forall x :: x in Encoded(codec, m) <==> x in Encoded(codec, n) {
      SameMembersSubmap(codec, m, n);
      SameMembersSubmap(codec, n, m);
    }
  }

  lemma SameMembersSubmap(codec: AddressCodec, m: SignatureMap, n: SignatureMap)
    requires IsAddressCodec(codec) && AllWritable(codec, m) && AllWritable(codec, n)
    requires NoDuplicates(m) && NoDuplicates(n)
    requires forall x :: x in Encoded(codec, m) ==> x in Encoded(codec, n)
    ensures forall s :: s in Signatures(m) ==> s in Signatures(n) && Signatures(n)[s] == Signatures(m)[s]
  {
    forall s | s in Signatures(m)
      ensures s in Signatures(n) && Signatures(n)[s] == Signatures(m)[s]
    {
      var i := SignatureIndex(m, s);
      EncodedMember(codec, m, s, m[i].value);
      EncodedMember(codec, n, s, m[i].value);
    }
  }

  // ----------------------------------------------------------- the main laws

  lemma WriteMembers(codec: AddressCodec, payload: AuthPayload)
    requires Write(codec, payload).Some?
    ensures AllWritable(codec, payload.signers)
    ensures var entries := Encoded(codec, payload.signers);
            && Write(codec, payload) == Some(PayloadValue(payload.ruleIds, Sort(entries)))
            && AreKeys(entries)
    ensures forall i :: 0 <= i < |payload.ruleIds| ==> payload.ruleIds[i] < U32_LIMIT
    ensures |payload.ruleIds| < U32_LIMIT
  {
    var entries := Encoded(codec, payload.signers);
    var sorted, ids := Sort(entries), WriteRuleIds(payload.ruleIds);
    var value := PayloadValue(payload.ruleIds, sorted);
    assert IsEncodable(value.entries[0].val) && IsEncodable(value.entries[1].val);
    SortMembers(entries);
    forall e | e in entries
      ensures IsKey(e.key)
    {
      var i :| 0 <= i < |sorted| && sorted[i] == e;
      var j :| 0 <= j < |entries| && entries[j] == e;
      SignerKeyIsText(codec, payload.signers[j].key.signer);
    }
    forall i | 0 <= i < |payload.ruleIds|
      ensures payload.ruleIds[i] < U32_LIMIT
    {
      assert IsEncodable(ids[i]);
    }
  }

  lemma WriteRuleIdsInjective(a: seq<nat>, b: seq<nat>)
    requires WriteRuleIds(a) == WriteRuleIds(b)
    ensures a == b
  {
    forall i | 0 <= i < |a|
      ensures a[i] == b[i]
    {
      assert WriteRuleIds(a)[i] == WriteRuleIds(b)[i];
    }
  }

  /**
   * Two payloads are written as the same value exactly when they have the same
   * rule ids and the same signature for every signer, in whatever order the
   * signatures were collected.
   */
  lemma WriteIsCanonical(codec: AddressCodec, p: AuthPayload, q: AuthPayload)
    requires IsAddressCodec(codec)
    requires NoDuplicates(p.signers) && NoDuplicates(q.signers)
    requires Write(codec, p).Some? && Write(codec, q).Some?
    ensures Write(codec, p) == Write(codec, q)
       <==> p.ruleIds == q.ruleIds && Signatures(p.signers) == Signatures(q.signers)
  {
    WriteMembers(codec, p);
    WriteMembers(codec, q);
    var a, b := Encoded(codec, p.signers), Encoded(codec, q.signers);
    SortMembers(a);
    SortMembers(b);
    SameSignaturesSameMembers(codec, p.signers, q.signers);
    if Write(codec, p) == Write(codec, q) {
      var v := Write(codec, p).value;
      assert v.entries[0].val.items == WriteRuleIds(p.ruleIds) == WriteRuleIds(q.ruleIds);
      assert v.entries[1].val.entries == Sort(a) == Sort(b);
      WriteRuleIdsInjective(p.ruleIds, q.ruleIds);
    }
    if p.ruleIds == q.ruleIds && Signatures(p.signers) == Signatures(q.signers) {
      EncodedKeysDistinct(codec, p.signers);
      EncodedKeysDistinct(codec, q.signers);
      SortSorts(a);
      SortSorts(b);
      SortedIsUnique(Sort(a), Sort(b));
    }
  }

  /** The map entry of one of the signatures. */
  ghost predicate IsEntryOf(codec: AddressCodec, x: ScMapEntry, signatures: map<Signer, Bytes>) {
    exists s :: s in signatures && SignerToScVal(codec, s) == Some(x.key) && x.val == ScvBytes(signatures[s])
  }

  lemma EncodedAreEntries(codec: AddressCodec, m: SignatureMap, x: ScMapEntry)
    requires AllWritable(codec, m) && NoDuplicates(m)
    ensures x in Encoded(codec, m) <==> IsEntryOf(codec, x, Signatures(m))
  {
    if i :| 0 <= i < |m| && Encoded(codec, m)[i] == x {
      SignaturesAt(m, i);
      assert SignerToScVal(codec, m[i].key.signer) == Some(x.key);
    }
    if s :| s in Signatures(m) && SignerToScVal(codec, s) == Some(x.key) && x.val == ScvBytes(Signatures(m)[s]) {
      var i := SignatureIndex(m, s);
      assert Encoded(codec, m)[i] == x;
    }
  }

  /** Keys in the order the host demands, without repeats. */
  ghost predicate InHostOrder(entries: seq<ScMapEntry>) {
    forall i, j :: 0 <= i < j < |entries| ==> HostBefore(entries[i].key, entries[j].key)
  }

  lemma SortedIsInHostOrder(entries: seq<ScMapEntry>)
    requires AreKeys(entries)
    ensures StrictlySorted(entries) <==> InHostOrder(entries)
  {
    forall i, j | 0 <= i < j < |entries|
      ensures Compare(entries[i].key, entries[j].key) < 0 <==> HostBefore(entries[i].key, entries[j].key)
    {
      CompareIsHostOrder(entries[i].key, entries[j].key);
    }
  }

  /**
   * The written signer map has strictly increasing keys, as the host demands,
   * exactly when no signer is listed twice. It then has one entry for each
   * signature of the payload, and no other.
   */
  lemma WrittenMapIsHostSorted(codec: AddressCodec, payload: AuthPayload)
    requires IsAddressCodec(codec) && Write(codec, payload).Some?
    ensures
      var v := Write(codec, payload).value;
      && v.ScvMap? && |v.entries| == 2 && v.entries[1].val.ScvMap?
      && (InHostOrder(v.entries[1].val.entries) <==> NoDuplicates(payload.signers))
      && |v.entries[1].val.entries| == |payload.signers|
    ensures NoDuplicates(payload.signers) ==>
              forall x :: x in Write(codec, payload).value.entries[1].val.entries
                     <==> IsEntryOf(codec, x, Signatures(payload.signers))
  {
    WriteMembers(codec, payload);
    var entries := Encoded(codec, payload.signers);
    EncodedKeysDistinct(codec, payload.signers);
    SortMembers(entries);
    SortedIsInHostOrder(Sort(entries));
    if NoDuplicates(payload.signers) {
      SortSorts(entries);
      forall x
        ensures x in Sort(entries) <==> IsEntryOf(codec, x, Signatures(payload.signers))
      {
        EncodedAreEntries(codec, payload.signers, x);
      }
    }
    if StrictlySorted(Sort(entries)) {
      SortedSourceDistinct(entries);
    }
  }

  /** Delegated signers first; then by address, and external signers last by key data. */
  ghost predicate SignerBefore(codec: AddressCodec, a: Signer, b: Signer)
    requires SignerToScVal(codec, a).Some? && SignerToScVal(codec, b).Some?
  {
    match (a, b)
    case (Delegated(x), Delegated(y)) => AddressBefore(codec.parse(x).value, codec.parse(y).value)
    case (Delegated(_), External(_, _)) => true
    case (External(_, _), Delegated(_)) => false
    case (External(x, p), External(y, q)) =>
      || AddressBefore(codec.parse(x).value, codec.parse(y).value)
      || (codec.parse(x) == codec.parse(y) && BytesBefore(p, q))
  }

  predicate IsAscii(b: Bytes) {
    forall i :: 0 <= i < |b| ==> b[i] < 0x80
  }

  /** ASCII texts with different first bytes, which decide. */
  predicate TagBefore(p: Bytes, q: Bytes) {
    p != [] && q != [] && p[0] < q[0] && IsAscii(p) && IsAscii(q)
  }

  lemma CompareTags(p: Bytes, q: Bytes)
    ensures TagBefore(p, q) ==>
              Compare(ScvSymbol(p), ScvSymbol(q)) < 0 && Compare(ScvSymbol(q), ScvSymbol(p)) > 0
    ensures p == q ==> Compare(ScvSymbol(p), ScvSymbol(q)) == 0
  {
    CompareBytesOrder(Reencoded(p), Reencoded(p), []);
    if TagBefore(p, q) {
      AsciiIsWellFormed(p);
      AsciiIsWellFormed(q);
      FixedIffWellFormed(p);
      FixedIffWellFormed(q);
    }
  }

  lemma VariantOrder()
    ensures TagBefore(DELEGATED, EXTERNAL)
  {
    assert DELEGATED[0] == 68 && EXTERNAL[0] == 69;
  }

  lemma CompareLists(x: ScVal, xs: seq<ScVal>, y: ScVal, ys: seq<ScVal>)
    ensures CompareItems([x] + xs, [y] + ys) == if Compare(x, y) != 0 then Compare(x, y) else CompareItems(xs, ys)
  {
    assert ([x] + xs)[1..] == xs && ([y] + ys)[1..] == ys;
  }

  /** Two vectors that begin with a tag and an address. */
  lemma CompareTagged(
    x: ScVal, p: Bytes, a: ScAddress, xs: seq<ScVal>, y: ScVal, q: Bytes, b: ScAddress, ys: seq<ScVal>)
    requires x == ScvVec([ScvSymbol(p), ScvAddress(a)] + xs) && y == ScvVec([ScvSymbol(q), ScvAddress(b)] + ys)
    requires IsAddress(a) && IsAddress(b)
    ensures TagBefore(p, q) ==> Compare(x, y) < 0 && Compare(y, x) > 0
    ensures p == q ==> (Compare(x, y) < 0 <==> AddressBefore(a, b) || (a == b && CompareItems(xs, ys) < 0))
  {
    assert x.items == [ScvSymbol(p)] + ([ScvAddress(a)] + xs);
    assert y.items == [ScvSymbol(q)] + ([ScvAddress(b)] + ys);
    CompareLists(ScvSymbol(p), [ScvAddress(a)] + xs, ScvSymbol(q), [ScvAddress(b)] + ys);
    CompareLists(ScvSymbol(q), [ScvAddress(b)] + ys, ScvSymbol(p), [ScvAddress(a)] + xs);
    CompareLists(ScvAddress(a), xs, ScvAddress(b), ys);
    CompareTags(p, q);
    AddressOrder(a, b);
    CompareSign(ScvAddress(a), ScvAddress(b));
  }

  lemma CompareOne(p: Bytes, q: Bytes)
    ensures CompareItems([ScvBytes(p)], [ScvBytes(q)]) < 0 <==> BytesBefore(p, q)
  {
    assert [ScvBytes(p)] == [ScvBytes(p)] + [] && [ScvBytes(q)] == [ScvBytes(q)] + [];
    CompareLists(ScvBytes(p), [], ScvBytes(q), []);
    CompareBytesIsLexicographic(p, q);
  }

  lemma CompareSignerKeys(codec: AddressCodec, a: Signer, b: Signer)
    requires IsAddressCodec(codec) && SignerToScVal(codec, a).Some? && SignerToScVal(codec, b).Some?
    ensures Compare(SignerToScVal(codec, a).value, SignerToScVal(codec, b).value) < 0 <==> SignerBefore(codec, a, b)
  {
    var x, y := SignerToScVal(codec, a).value, SignerToScVal(codec, b).value;
    VariantOrder();
    var p, q := x.items[0].name, y.items[0].name;
    CompareTagged(x, p, x.items[1].address, x.items[2..], y, q, y.items[1].address, y.items[2..]);
    CompareTagged(y, q, y.items[1].address, y.items[2..], x, p, x.items[1].address, x.items[2..]);
    if a.External? && b.External? {
      CompareOne(a.keyData, b.keyData);
    }
  }

  /**
   * In a written payload the signers come in this order: delegated signers by
   * address, then external signers by verifier and key data.
   */
  lemma WrittenSignersAreOrdered(codec: AddressCodec, payload: AuthPayload, i: nat, j: nat)
    requires IsAddressCodec(codec) && Write(codec, payload).Some? && NoDuplicates(payload.signers)
    requires i < j < |payload.signers|
    ensures
      var v := Write(codec, payload).value;
      && v.ScvMap? && |v.entries| == 2 && v.entries[1].val.ScvMap?
      && |v.entries[1].val.entries| == |payload.signers|
      && (var a, b :=
            ParseSigner(codec, v.entries[1].val.entries[i].key), ParseSigner(codec, v.entries[1].val.entries[j].key);
          && a.Ok? && b.Ok?
          && SignerToScVal(codec, a.value).Some? && SignerToScVal(codec, b.value).Some?
          && SignerBefore(codec, a.value, b.value))
  {
    WrittenMapIsHostSorted(codec, payload);
    WriteMembers(codec, payload);
    var entries := Encoded(codec, payload.signers);
    var sorted := Sort(entries);
    SortMembers(entries);
    EncodedKeysDistinct(codec, payload.signers);
    SortSorts(entries);
    SortedReadable(codec, payload.signers);
    assert sorted[i] in sorted && sorted[j] in sorted;
    CompareSignerKeys(
      codec, ParseSigner(codec, sorted[i].key).value, ParseSigner(codec, sorted[j].key).value);
  }

  // ------------------------------------------------------------- round trip

  /** Entries that `readAuthPayload` reads back to signers that encode to them. */
  ghost predicate Readable(codec: AddressCodec, entries: seq<ScMapEntry>) {
    forall e :: e in entries ==>
                  && ParseSigner(codec, e.key).Ok?
                  && SignerToScVal(codec, ParseSigner(codec, e.key).value) == Some(e.key)
                  && e.val.ScvBytes?
  }

  lemma EncodedCons(codec: AddressCodec, head: Entry<SignerObject, Bytes>, tail: SignatureMap)
    requires AllWritable(codec, tail) && SignerToScVal(codec, head.key.signer).Some?
    ensures AllWritable(codec, [head] + tail)
    ensures Encoded(codec, [head] + tail)
         == [ScMapEntry(SignerToScVal(codec, head.key.signer).value, ScvBytes(head.value))] + Encoded(codec, tail)
  {
  }

  lemma ReadableTail(codec: AddressCodec, entries: seq<ScMapEntry>)
    requires Readable(codec, entries) && entries != []
    ensures ParseSigner(codec, entries[0].key).Ok? && entries[0].val.ScvBytes?
    ensures SignerToScVal(codec, ParseSigner(codec, entries[0].key).value) == Some(entries[0].key)
    ensures Readable(codec, entries[1..])
  {
    assert entries[0] in entries;
  }

  /** The map entries that reading `entries` appends to a map of size `n`. */
  ghost function Appended(codec: AddressCodec, entries: seq<ScMapEntry>, n: nat): SignatureMap
    requires Readable(codec, entries)
    decreases |entries|
  {
    if entries == [] then []
    else
      ReadableTail(codec, entries);
      var owner := SignerObject(-1 - n, ParseSigner(codec, entries[0].key).value);
      [Entry(owner, entries[0].val.bytes)] + Appended(codec, entries[1..], n + 1)
  }

  lemma {:induction false} ReadAppends(codec: AddressCodec, entries: seq<ScMapEntry>, m: SignatureMap)
    requires Readable(codec, entries)
    ensures ReadSigners(codec, entries, m) == Ok(m + Appended(codec, entries, |m|))
    decreases |entries|
  {
    if entries == [] {
      assert m + [] == m;
    } else {
      ReadableTail(codec, entries);
      var head := Entry(SignerObject(-1 - |m|, ParseSigner(codec, entries[0].key).value), entries[0].val.bytes);
      ReadAppends(codec, entries[1..], m + [head]);
      var tail := Appended(codec, entries[1..], |m| + 1);
      assert m + [head] + tail == m + ([head] + tail);
    }
  }

  lemma {:induction false} AppendedEncodes(codec: AddressCodec, entries: seq<ScMapEntry>, n: nat)
    requires Readable(codec, entries)
    ensures AllWritable(codec, Appended(codec, entries, n))
    ensures Encoded(codec, Appended(codec, entries, n)) == entries
    decreases |entries|
  {
    if entries != [] {
      ReadableTail(codec, entries);
      var head := Entry(SignerObject(-1 - n, ParseSigner(codec, entries[0].key).value), entries[0].val.bytes);
      AppendedEncodes(codec, entries[1..], n + 1);
      EncodedCons(codec, head, Appended(codec, entries[1..], n + 1));
      assert entries == [entries[0]] + entries[1..];
    }
  }

  lemma {:induction false} ReadRuleIdsBack(ids: seq<nat>)
    ensures ReadRuleIds(WriteRuleIds(ids)) == Ok(ids)
  {
    if ids != [] {
      ReadRuleIdsBack(ids[1..]);
      assert WriteRuleIds(ids)[1..] == WriteRuleIds(ids[1..]);
      assert ids == [ids[0]] + ids[1..];
    }
  }

  lemma SortedReadable(codec: AddressCodec, m: SignatureMap)
    requires IsAddressCodec(codec) && AllWritable(codec, m)
    ensures Readable(codec, Sort(Encoded(codec, m)))
  {
    var entries := Encoded(codec, m);
    SortMembers(entries);
    forall e | e in entries
      ensures ParseSigner(codec, e.key).Ok? && e.val.ScvBytes?
      ensures SignerToScVal(codec, ParseSigner(codec, e.key).value) == Some(e.key)
    {
      var i :| 0 <= i < |m| && entries[i] == e;
      ParseSignerOfScVal(codec, m[i].key.signer);
    }
  }

  lemma ReadPayloadValue(codec: AddressCodec, ids: seq<nat>, sorted: seq<ScMapEntry>)
    returns (m: SignatureMap)
    requires Readable(codec, sorted)
    ensures Read(codec, PayloadValue(ids, sorted)) == Ok(AuthPayload(ids, m))
    ensures AllWritable(codec, m) && Encoded(codec, m) == sorted
  {
    var fields := PayloadValue(ids, sorted).entries;
    m := Appended(codec, sorted, 0);
    ReadAppends(codec, sorted, []);
    AppendedEncodes(codec, sorted, 0);
    assert [] + m == m;
    ReadRuleIdsBack(ids);
    assert |RULE_IDS| == 16 && |SIGNERS| == 7;
    var afterIds := AuthPayload(ids, []);
    assert ReadField(codec, fields[0], EMPTY) == Ok(afterIds);
    var done := AuthPayload(ids, m);
    assert ReadField(codec, fields[1], afterIds) == Ok(done);
    assert fields[1..][0] == fields[1] && fields[1..][1..] == [];
    assert ReadFields(codec, fields[1..][1..], done) == Ok(done);
    assert ReadFields(codec, fields[1..], afterIds) == Ok(done);
  }

  /**
   * Reading a written payload gives back its rule ids and the signature of
   * every signer, now in host order and still without duplicates.
   */
  lemma ReadAfterWrite(codec: AddressCodec, payload: AuthPayload) returns (back: AuthPayload)
    requires IsAddressCodec(codec) && NoDuplicates(payload.signers)
    requires Write(codec, payload).Some?
    ensures Read(codec, Write(codec, payload).value) == Ok(back)
    ensures back.ruleIds == payload.ruleIds
    ensures NoDuplicates(back.signers)
    ensures Signatures(back.signers) == Signatures(payload.signers)
  {
    WriteMembers(codec, payload);
    SortedReadable(codec, payload.signers);
    var n := ReadPayloadValue(codec, payload.ruleIds, Sort(Encoded(codec, payload.signers)));
    back := AuthPayload(payload.ruleIds, n);
    SortedMeaning(codec, payload.signers, n);
  }

  lemma SortedMeaning(codec: AddressCodec, m: SignatureMap, n: SignatureMap)
    requires IsAddressCodec(codec) && AllWritable(codec, m) && AllWritable(codec, n)
    requires NoDuplicates(m) && AreKeys(Encoded(codec, m))
    requires Encoded(codec, n) == Sort(Encoded(codec, m))
    ensures NoDuplicates(n) && Signatures(n) == Signatures(m)
  {
    var entries := Encoded(codec, m);
    EncodedKeysDistinct(codec, m);
    SortMembers(entries);
    SortSorts(entries);
    StrictlySortedKeysDistinct(Sort(entries));
    EncodedKeysDistinct(codec, n);
    SameSignaturesSameMembers(codec, m, n);
  }

  lemma StrictlySortedKeysDistinct(entries: seq<ScMapEntry>)
    requires StrictlySorted(entries) && AreKeys(entries)
    ensures DistinctEntryKeys(entries)
  {
    forall i, j | 0 <= i < j < |entries|
      ensures entries[i].key != entries[j].key
    {
      CompareKeys(entries[i].key, entries[j].key);
    }
  }

  lemma InsertedBehind(first: ScMapEntry, e: ScMapEntry, tail: seq<ScMapEntry>)
    requires StrictlySorted([first] + Insert(e, tail))
    ensures StrictlySorted(Insert(e, tail))
    ensures forall x :: x in tail ==> Compare(first.key, x.key) < 0
  {
    TailStrictlySorted([first] + Insert(e, tail));
    assert ([first] + Insert(e, tail))[1..] == Insert(e, tail);
    InsertMembers(e, tail);
  }

  lemma {:induction false} InsertSortedInverse(e: ScMapEntry, sorted: seq<ScMapEntry>)
    requires StrictlySorted(Insert(e, sorted)) && IsKey(e.key)
    ensures StrictlySorted(sorted)
    ensures forall x :: x in sorted ==> x.key != e.key
  {
    CompareKeys(e.key, e.key);
    if sorted == [] || Compare(e.key, sorted[0].key) <= 0 {
      assert Insert(e, sorted)[1..] == sorted;
      TailStrictlySorted(Insert(e, sorted));
    } else {
      var tail := sorted[1..];
      InsertedBehind(sorted[0], e, tail);
      InsertSortedInverse(e, tail);
      ConsSorted(sorted[0], tail);
      assert sorted == [sorted[0]] + tail;
    }
  }

  lemma TailStrictlySorted(entries: seq<ScMapEntry>)
    requires entries != [] && StrictlySorted(entries)
    ensures StrictlySorted(entries[1..])
    ensures forall x :: x in entries[1..] ==> Compare(entries[0].key, x.key) < 0
  {
  }

  lemma {:induction false} SortedSourceDistinct(entries: seq<ScMapEntry>)
    requires StrictlySorted(Sort(entries)) && AreKeys(entries)
    ensures DistinctEntryKeys(entries)
  {
    if entries != [] {
      var tail := entries[1..];
      InsertSortedInverse(entries[0], Sort(tail));
      SortedSourceDistinct(tail);
      SortMembers(tail);
      forall j | 0 < j < |entries|
        ensures entries[0].key != entries[j].key
      {
        assert entries[j] == tail[j - 1];
        assert entries[j] in Sort(tail);
      }
    }
  }

  // --------------------------------------------------- when writing succeeds

  ghost predicate CanWrite(codec: AddressCodec, ids: seq<nat>, signatures: map<Signer, Bytes>) {
    && |ids| < U32_LIMIT
    && (forall i :: 0 <= i < |ids| ==> ids[i] < U32_LIMIT)
    && |signatures| < U32_LIMIT
    && forall s :: s in signatures ==> CanWriteSignature(codec, s, signatures[s])
  }

  ghost predicate CanWriteSignature(codec: AddressCodec, signer: Signer, signature: Bytes) {
    && SignerToScVal(codec, signer).Some?
    && IsEncodable(SignerToScVal(codec, signer).value)
    && |signature| < U32_LIMIT
  }

  lemma {:induction false} SignaturesSize(m: SignatureMap)
    requires NoDuplicates(m)
    ensures |Signatures(m)| == |m|
  {
    if m != [] {
      var n := |m| - 1;
      FrontNoDuplicates(m);
      SignaturesSize(m[..n]);
      if m[n].key.signer in Signatures(m[..n]) {
        var i := SignatureIndex(m[..n], m[n].key.signer);
        NoDuplicatesAt(m, i, n);
        assert false;
      }
      assert Signatures(m).Keys == Signatures(m[..n]).Keys + {m[n].key.signer};
    }
  }

  lemma PayloadValueEncodable(ids: seq<nat>, sorted: seq<ScMapEntry>)
    ensures IsEncodable(PayloadValue(ids, sorted)) <==>
              && |ids| < U32_LIMIT
              && (forall i :: 0 <= i < |ids| ==> ids[i] < U32_LIMIT)
              && |sorted| < U32_LIMIT
              && forall e :: e in sorted ==> IsEncodable(e.key) && IsEncodable(e.val)
  {
    var v := PayloadValue(ids, sorted);
    var items := WriteRuleIds(ids);
    assert |RULE_IDS| == 16 && |SIGNERS| == 7;
    assert forall i :: 0 <= i < |ids| ==> (IsEncodable(items[i]) <==> ids[i] < U32_LIMIT);
    assert IsEncodable(v.entries[0].key) && IsEncodable(v.entries[1].key);
    assert IsEncodable(v) <==> IsEncodable(v.entries[0].val) && IsEncodable(v.entries[1].val);
  }

  /** Writing fails only on rule ids, signers or signatures that XDR cannot carry. */
  lemma WritesIff(codec: AddressCodec, payload: AuthPayload)
    requires NoDuplicates(payload.signers)
    ensures Write(codec, payload).Some? <==> CanWrite(codec, payload.ruleIds, Signatures(payload.signers))
  {
    var m := payload.signers;
    SignaturesSize(m);
    if CanWrite(codec, payload.ruleIds, Signatures(m)) {
      forall i | 0 <= i < |m|
        ensures CanWriteSignature(codec, m[i].key.signer, m[i].value)
      {
        SignaturesAt(m, i);
      }
      assert AllWritable(codec, m);
    }
    if AllWritable(codec, m) {
      var entries := Encoded(codec, m);
      SortMembers(entries);
      PayloadValueEncodable(payload.ruleIds, Sort(entries));
      EntriesEncodableIff(codec, m);
    }
  }

  lemma EntriesEncodableIff(codec: AddressCodec, m: SignatureMap)
    requires NoDuplicates(m) && AllWritable(codec, m)
    ensures (forall e :: e in Encoded(codec, m) ==> IsEncodable(e.key) && IsEncodable(e.val))
       <==> (forall s :: s in Signatures(m) ==> CanWriteSignature(codec, s, Signatures(m)[s]))
  {
    var entries := Encoded(codec, m);
    if forall e :: e in entries ==> IsEncodable(e.key) && IsEncodable(e.val) {
      forall s | s in Signatures(m)
        ensures CanWriteSignature(codec, s, Signatures(m)[s])
      {
        var i := SignatureIndex(m, s);
        assert entries[i] in entries;
      }
    }
    if forall s :: s in Signatures(m) ==> CanWriteSignature(codec, s, Signatures(m)[s]) {
      forall e | e in entries
        ensures IsEncodable(e.key) && IsEncodable(e.val)
      {
        var i :| 0 <= i < |m| && entries[i] == e;
        SignaturesAt(m, i);
      }
    }
  }

  // ---------------------------------------------------- reading what XDR carries

  /** Every entry is one that writing accepts. */
  ghost predicate AreCarried(codec: AddressCodec, m: SignatureMap) {
    forall i :: 0 <= i < |m| ==> CanWriteSignature(codec, m[i].key.signer, m[i].value)
  }

  /** A signer read from a key that XDR carries can be written as a key. */
  lemma ParsedSignerIsCarried(codec: AddressCodec, key: ScVal)
    requires IsAddressCodec(codec) && IsEncodable(key) && ParseSigner(codec, key).Ok?
    ensures SignerToScVal(codec, ParseSigner(codec, key).value).Some?
    ensures IsEncodable(SignerToScVal(codec, ParseSigner(codec, key).value).value)
  {
    assert |DELEGATED| == 9 && |EXTERNAL| == 8;
    assert IsEncodable(key.items[1]);
    if |key.items| > 2 {
      assert IsEncodable(key.items[2]);
    }
    var items := SignerToScVal(codec, ParseSigner(codec, key).value).value.items;
    assert forall i :: 0 <= i < |items| ==> IsEncodable(items[i]);
  }

  lemma {:induction false} ReadSignersCarried(codec: AddressCodec, entries: seq<ScMapEntry>, m: SignatureMap)
    requires IsAddressCodec(codec) && AreCarried(codec, m)
    requires forall i :: 0 <= i < |entries| ==> IsEncodable(entries[i].key) && IsEncodable(entries[i].val)
    requires ReadSigners(codec, entries, m).Ok?
    ensures AreCarried(codec, ReadSigners(codec, entries, m).value)
    decreases |entries|
  {
    if entries != [] {
      ParsedSignerIsCarried(codec, entries[0].key);
      var owner := SignerObject(-1 - |m|, ParseSigner(codec, entries[0].key).value);
      ReadSignersCarried(codec, entries[1..], m + [Entry(owner, entries[0].val.bytes)]);
    }
  }

  lemma {:induction false} ReadFieldsCarried(codec: AddressCodec, entries: seq<ScMapEntry>, payload: AuthPayload)
    requires IsAddressCodec(codec) && AreCarried(codec, payload.signers)
    requires forall i :: 0 <= i < |entries| ==> IsEncodable(entries[i].key) && IsEncodable(entries[i].val)
    requires ReadFields(codec, entries, payload).Ok?
    ensures AreCarried(codec, ReadFields(codec, entries, payload).value.signers)
    decreases |entries|
  {
    if entries != [] {
      var first := entries[0];
      if first.key.ScvSymbol? && first.key.name == SIGNERS && first.key.name != RULE_IDS {
        ReadSignersCarried(codec, first.val.entries, payload.signers);
      }
      ReadFieldsCarried(codec, entries[1..], ReadField(codec, first, payload).value);
    }
  }

  /** Every signature in a payload that came through XDR can be written again. */
  lemma ReadIsCarried(codec: AddressCodec, signature: ScVal, signer: Signer)
    requires IsAddressCodec(codec) && IsEncodable(signature) && Read(codec, signature).Ok?
    requires NoDuplicates(Read(codec, signature).value.signers)
    ensures
      var signatures := Signatures(Read(codec, signature).value.signers);
      signer in signatures ==> CanWriteSignature(codec, signer, signatures[signer])
  {
    var m := Read(codec, signature).value.signers;
    if signature.ScvMap? {
      ReadFieldsCarried(codec, signature.entries, EMPTY);
    }
    if signer in Signatures(m) {
      var i := SignatureIndex(m, signer);
    }
  }
}
