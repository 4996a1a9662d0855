/**
 * Soroban values: their XDR bytes (RFC 4506) and the host order of map keys
 * that `compareScVal` computes.
 */
module ScVals {
  import opened ByteStrings
  import opened Utf8

  /** `body` is the XDR of the union arm that `kind` selects. */
  datatype ScAddress = ScAddress(kind: nat, body: Bytes)

  datatype ScVal =
    | ScvVoid
    | ScvU32(value: nat)
      /** Any other type of fixed width, by its discriminant and the XDR of its arm. */
    | ScvScalar(kind: nat, body: Bytes)
    | ScvBytes(bytes: Bytes)
    | ScvString(text: Bytes)
    | ScvSymbol(name: Bytes)
    | ScvVec(items: seq<ScVal>)
    | ScvMap(entries: seq<ScMapEntry>)
    | ScvAddress(address: ScAddress)

  datatype ScMapEntry = ScMapEntry(key: ScVal, val: ScVal)

  const U32_LIMIT: nat := 0x1_0000_0000

  /** `switch().value`. */
  function Discriminant(v: ScVal): nat {
    match v
    case ScvVoid => 1
    case ScvU32(_) => 3
    case ScvScalar(kind, _) => kind
    case ScvBytes(_) => 13
    case ScvString(_) => 14
    case ScvSymbol(_) => 15
    case ScvVec(_) => 16
    case ScvMap(_) => 17
    case ScvAddress(_) => 18
  }

  /** The XDR width of the arm of a fixed-width type. */
  function ScalarWidth(kind: nat): nat {
    match kind
    case 0 => 4                                  // bool
    case 2 => 8                                  // error: type and code
    case 4 => 4                                  // i32
    case 5 => 8 case 6 => 8 case 7 => 8 case 8 => 8
    case 9 => 16 case 10 => 16
    case 11 => 32 case 12 => 32
    case 20 => 0                                 // ledger key of a contract instance
    case _ => 8                                  // ledger key nonce
  }

  /** Contract instances, of kind 19, have no fixed width. */
  predicate IsScalarKind(kind: nat) {
    kind != 1 && kind != 3 && !(13 <= kind <= 19) && kind < 22
  }

  /** Account, contract, muxed account, claimable balance, liquidity pool, muxed contract. */
  function AddressWidth(kind: nat): nat {
    match kind
    case 0 => 36
    case 1 => 32
    case 2 => 40
    case 3 => 36
    case 4 => 32
    case _ => 40
  }

  predicate IsAddress(a: ScAddress) {
    a.kind < 6 && |a.body| == AddressWidth(a.kind)
  }

  /** The values XDR can carry, contract instances apart. */
  predicate IsEncodable(v: ScVal) {
    match v
    case ScvVoid => true
    case ScvU32(n) => n < U32_LIMIT
    case ScvScalar(kind, body) => IsScalarKind(kind) && |body| == ScalarWidth(kind)
    case ScvBytes(b) => |b| < U32_LIMIT
    case ScvString(b) => |b| < U32_LIMIT
    case ScvSymbol(b) => |b| < U32_LIMIT
    case ScvVec(items) => |items| < U32_LIMIT && forall i :: 0 <= i < |items| ==> IsEncodable(items[i])
    case ScvMap(entries) =>
      && |entries| < U32_LIMIT
      && forall i :: 0 <= i < |entries| ==> IsEncodable(entries[i].key) && IsEncodable(entries[i].val)
    case ScvAddress(a) => IsAddress(a)
  }

  // -------------------------------------------------------------------- XDR

  function XdrU32(n: nat): (b: Bytes)
    ensures |b| == 4
  {
    Fixed(n, 4)
  }

  /** Variable-length opaque data: length, bytes, zero padding to four. */
  function XdrOpaque(b: Bytes): Bytes {
    XdrU32(|b|) + (b + Zeros((4 - |b| % 4) % 4))
  }

  function Zeros(n: nat): (b: Bytes)
    ensures |b| == n
  {
    seq(n, _ => 0)
  }

  function XdrAddress(a: ScAddress): Bytes {
    XdrU32(a.kind) + a.body
  }

  function Xdr(v: ScVal): Bytes
    decreases v, 1
  {
    XdrU32(Discriminant(v)) + XdrArm(v)
  }

  function XdrArm(v: ScVal): Bytes
    decreases v, 0
  {
    match v
    case ScvVoid => []
    case ScvU32(n) => XdrU32(n)
    case ScvScalar(_, body) => body
    case ScvBytes(b) => XdrOpaque(b)
    case ScvString(b) => XdrOpaque(b)
    case ScvSymbol(b) => XdrOpaque(b)
    case ScvVec(items) => XdrU32(1) + (XdrU32(|items|) + XdrItems(items))
    case ScvMap(entries) => XdrU32(1) + (XdrU32(|entries|) + XdrEntries(entries))
    case ScvAddress(a) => XdrAddress(a)
  }

  function XdrItems(items: seq<ScVal>): Bytes {
    if items == [] then [] else Xdr(items[0]) + XdrItems(items[1..])
  }

  function XdrEntries(entries: seq<ScMapEntry>): Bytes {
    if entries == [] then [] else XdrEntry(entries[0]) + XdrEntries(entries[1..])
  }

  function XdrEntry(entry: ScMapEntry): Bytes {
    Xdr(entry.key) + Xdr(entry.val)
  }

  lemma AppendSplit(p: Bytes, x: Bytes, q: Bytes, y: Bytes)
    requires |p| == |q| && p + x == q + y
    ensures p == q && x == y
  {
    assert p == (p + x)[..|p|] && q == (q + y)[..|q|];
    assert x == (p + x)[|p|..] && y == (q + y)[|q|..];
  }

  lemma XdrU32Split(n: nat, x: Bytes, m: nat, y: Bytes)
    requires n < U32_LIMIT && m < U32_LIMIT && XdrU32(n) + x == XdrU32(m) + y
    ensures n == m && x == y
  {
    AppendSplit(XdrU32(n), x, XdrU32(m), y);
    assert Power(256, 4) == U32_LIMIT;
    ValueOfFixed(n, 4);
    ValueOfFixed(m, 4);
  }

  lemma Regroup(p: Bytes, q: Bytes, x: Bytes)
    ensures (p + q) + x == p + (q + x)
  {
  }

  lemma XdrOpaqueSplit(b: Bytes, x: Bytes, c: Bytes, y: Bytes)
    requires |b| < U32_LIMIT && |c| < U32_LIMIT && XdrOpaque(b) + x == XdrOpaque(c) + y
    ensures b == c && x == y
  {
    var p, q := Zeros((4 - |b| % 4) % 4), Zeros((4 - |c| % 4) % 4);
    Regroup(XdrU32(|b|), b + p, x);
    Regroup(XdrU32(|c|), c + q, y);
    XdrU32Split(|b|, b + p + x, |c|, c + q + y);
    AppendSplit(b + p, x, c + q, y);
    AppendSplit(b, p, c, q);
  }

  lemma XdrAddressSplit(a: ScAddress, x: Bytes, b: ScAddress, y: Bytes)
    requires IsAddress(a) && IsAddress(b) && XdrAddress(a) + x == XdrAddress(b) + y
    ensures a == b && x == y
  {
    Regroup(XdrU32(a.kind), a.body, x);
    Regroup(XdrU32(b.kind), b.body, y);
    XdrU32Split(a.kind, a.body + x, b.kind, b.body + y);
    AppendSplit(a.body, x, b.body, y);
  }

  /**
   * XDR is uniquely decodable: whatever follows it, the encoding of a value
   * determines the value and where it ends.
   */
  lemma {:induction false} XdrSplit(a: ScVal, x: Bytes, b: ScVal, y: Bytes)
    requires IsEncodable(a) && IsEncodable(b)
    requires Xdr(a) + x == Xdr(b) + y
    ensures a == b && x == y
    decreases a, 1
  {
    Regroup(XdrU32(Discriminant(a)), XdrArm(a), x);
    Regroup(XdrU32(Discriminant(b)), XdrArm(b), y);
    XdrU32Split(Discriminant(a), XdrArm(a) + x, Discriminant(b), XdrArm(b) + y);
    XdrArmSplit(a, x, b, y);
  }

  lemma {:induction false} XdrArmSplit(a: ScVal, x: Bytes, b: ScVal, y: Bytes)
    requires IsEncodable(a) && IsEncodable(b)
    requires Discriminant(a) == Discriminant(b)
    requires XdrArm(a) + x == XdrArm(b) + y
    ensures a == b && x == y
    decreases a, 0
  {
    match a
    case ScvVoid => AppendSplit([], x, [], y);
    case ScvU32(n) => XdrU32Split(n, x, b.value, y);
    case ScvScalar(_, body) => AppendSplit(body, x, b.body, y);
    case ScvBytes(c) => XdrOpaqueSplit(c, x, b.bytes, y);
    case ScvString(c) => XdrOpaqueSplit(c, x, b.text, y);
    case ScvSymbol(c) => XdrOpaqueSplit(c, x, b.name, y);
    case ScvVec(items) =>
      XdrCountSplit(|items|, XdrItems(items), x, |b.items|, XdrItems(b.items), y);
      XdrItemsSplit(items, x, b.items, y);
    case ScvMap(entries) =>
      XdrCountSplit(|entries|, XdrEntries(entries), x, |b.entries|, XdrEntries(b.entries), y);
      XdrEntriesSplit(entries, x, b.entries, y);
    case ScvAddress(c) => XdrAddressSplit(c, x, b.address, y);
  }

  lemma XdrCountSplit(n: nat, p: Bytes, x: Bytes, m: nat, q: Bytes, y: Bytes)
    requires n < U32_LIMIT && m < U32_LIMIT
    requires XdrU32(1) + (XdrU32(n) + p) + x == XdrU32(1) + (XdrU32(m) + q) + y
    ensures n == m && p + x == q + y
  {
    Regroup(XdrU32(1), XdrU32(n) + p, x);
    Regroup(XdrU32(1), XdrU32(m) + q, y);
    AppendSplit(XdrU32(1), XdrU32(n) + p + x, XdrU32(1), XdrU32(m) + q + y);
    Regroup(XdrU32(n), p, x);
    Regroup(XdrU32(m), q, y);
    XdrU32Split(n, p + x, m, q + y);
  }

  lemma {:induction false} XdrItemsSplit(a: seq<ScVal>, x: Bytes, b: seq<ScVal>, y: Bytes)
    requires |a| == |b| && XdrItems(a) + x == XdrItems(b) + y
    requires forall i :: 0 <= i < |a| ==> IsEncodable(a[i]) && IsEncodable(b[i])
    ensures a == b && x == y
    decreases a
  {
    if a == [] {
      AppendSplit([], x, [], y);
    } else {
      Regroup(Xdr(a[0]), XdrItems(a[1..]), x);
      Regroup(Xdr(b[0]), XdrItems(b[1..]), y);
      XdrSplit(a[0], XdrItems(a[1..]) + x, b[0], XdrItems(b[1..]) + y);
      XdrItemsSplit(a[1..], x, b[1..], y);
      assert a == [a[0]] + a[1..] && b == [b[0]] + b[1..];
    }
  }

  lemma {:induction false} XdrEntriesSplit(a: seq<ScMapEntry>, x: Bytes, b: seq<ScMapEntry>, y: Bytes)
    requires |a| == |b| && XdrEntries(a) + x == XdrEntries(b) + y
    requires forall i :: 0 <= i < |a| ==> IsEncodable(a[i].key) && IsEncodable(a[i].val)
    requires forall i :: 0 <= i < |b| ==> IsEncodable(b[i].key) && IsEncodable(b[i].val)
    ensures a == b && x == y
    decreases a
  {
    if a == [] {
      AppendSplit([], x, [], y);
    } else {
      Regroup(XdrEntry(a[0]), XdrEntries(a[1..]), x);
      Regroup(XdrEntry(b[0]), XdrEntries(b[1..]), y);
      XdrEntrySplit(a[0], XdrEntries(a[1..]) + x, b[0], XdrEntries(b[1..]) + y);
      XdrEntriesSplit(a[1..], x, b[1..], y);
      assert a == [a[0]] + a[1..] && b == [b[0]] + b[1..];
    }
  }

  lemma {:induction false} XdrEntrySplit(a: ScMapEntry, x: Bytes, b: ScMapEntry, y: Bytes)
    requires IsEncodable(a.key) && IsEncodable(a.val) && IsEncodable(b.key) && IsEncodable(b.val)
    requires XdrEntry(a) + x == XdrEntry(b) + y
    ensures a == b && x == y
    decreases a
  {
    Regroup(Xdr(a.key), Xdr(a.val), x);
    Regroup(Xdr(b.key), Xdr(b.val), y);
    XdrSplit(a.key, Xdr(a.val) + x, b.key, Xdr(b.val) + y);
    XdrSplit(a.val, x, b.val, y);
  }

  lemma XdrInjective(a: ScVal, b: ScVal)
    requires IsEncodable(a) && IsEncodable(b)
    requires Xdr(a) == Xdr(b)
    ensures a == b
  {
    XdrSplit(a, [], b, []);
  }

  // ------------------------------------------------------------- host order

  /** `x` and `y` are the results of comparing a pair in either order. */
  predicate Opposite(x: int, y: int) {
    (x < 0 <==> y > 0) && (x > 0 <==> y < 0)
  }

  /** `Buffer.compare`. */
  function CompareBytes(a: Bytes, b: Bytes): int {
    if a == [] || b == [] then |a| - |b|
    else if a[0] != b[0] then a[0] - b[0]
    else CompareBytes(a[1..], b[1..])
  }

  /** `Buffer.compare` of two texts that were decoded and encoded again. */
  function CompareTexts(a: Bytes, b: Bytes): int {
    CompareBytes(Reencoded(a), Reencoded(b))
  }

  /** `compareScVal`; only the sign of the result matters. */
  function Compare(a: ScVal, b: ScVal): int
    decreases a
  {
    if Discriminant(a) != Discriminant(b) then Discriminant(a) - Discriminant(b)
    else
      match (a, b)
      case (ScvVec(x), ScvVec(y)) => CompareItems(x, y)
      case (ScvMap(x), ScvMap(y)) => CompareEntries(x, y)
      case (ScvSymbol(x), ScvSymbol(y)) => CompareTexts(x, y)
      case (ScvString(x), ScvString(y)) => CompareTexts(x, y)
      case (ScvBytes(x), ScvBytes(y)) => CompareBytes(x, y)
      case (ScvAddress(x), ScvAddress(y)) => CompareBytes(XdrAddress(x), XdrAddress(y))
      case _ => CompareBytes(Xdr(a), Xdr(b))
  }

  function CompareItems(a: seq<ScVal>, b: seq<ScVal>): int
    decreases a
  {
    if a == [] || b == [] then |a| - |b|
    else
      var c := Compare(a[0], b[0]);
      if c != 0 then c else CompareItems(a[1..], b[1..])
  }

  function CompareEntries(a: seq<ScMapEntry>, b: seq<ScMapEntry>): int
    decreases a
  {
    if a == [] || b == [] then |a| - |b|
    else
      var c := CompareEntry(a[0], b[0]);
      if c != 0 then c else CompareEntries(a[1..], b[1..])
  }

  function CompareEntry(a: ScMapEntry, b: ScMapEntry): int
    decreases a
  {
    var c := Compare(a.key, b.key);
    if c != 0 then c else Compare(a.val, b.val)
  }

  /** A value as the comparison sees it: its texts decoded and encoded again. */
  function Decoded(v: ScVal): ScVal {
    match v
    case ScvString(b) => ScvString(Reencoded(b))
    case ScvSymbol(b) => ScvSymbol(Reencoded(b))
    case ScvVec(items) => ScvVec(DecodedItems(items))
    case ScvMap(entries) => ScvMap(DecodedEntries(entries))
    case _ => v
  }

  function DecodedItems(items: seq<ScVal>): seq<ScVal> {
    if items == [] then [] else [Decoded(items[0])] + DecodedItems(items[1..])
  }

  function DecodedEntries(entries: seq<ScMapEntry>): seq<ScMapEntry> {
    if entries == [] then [] else [DecodedEntry(entries[0])] + DecodedEntries(entries[1..])
  }

  function DecodedEntry(entry: ScMapEntry): ScMapEntry {
    ScMapEntry(Decoded(entry.key), Decoded(entry.val))
  }

  /** All texts in the value are well-formed UTF-8. */
  predicate HasWellFormedTexts(v: ScVal) {
    Decoded(v) == v
  }

  lemma {:induction false} CompareBytesOrder(a: Bytes, b: Bytes, c: Bytes)
    ensures CompareBytes(a, b) == 0 <==> a == b
    ensures Opposite(CompareBytes(a, b), CompareBytes(b, a))
    ensures IsChain(CompareBytes(a, b), CompareBytes(b, c), CompareBytes(a, c))
  {
    if a != [] && b != [] {
      assert a == [a[0]] + a[1..] && b == [b[0]] + b[1..];
      CompareBytesOrder(a[1..], b[1..], if c == [] then [] else c[1..]);
    }
  }

  /** The results of comparing a with b, b with c and a with c fit an order. */
  predicate IsChain(ab: int, bc: int, ac: int) {
    ab <= 0 && bc <= 0 ==> ac <= 0 && (ab < 0 || bc < 0 ==> ac < 0)
  }

  /**
   * The host order is a total order on what the comparison sees: it is zero
   * exactly on values that agree once their texts are decoded, and antisymmetric.
   */
  lemma {:induction false} CompareSign(a: ScVal, b: ScVal)
    requires IsEncodable(a) && IsEncodable(b)
    ensures Compare(a, b) == 0 <==> Decoded(a) == Decoded(b)
    ensures Opposite(Compare(a, b), Compare(b, a))
    decreases a
  {
    if Discriminant(a) == Discriminant(b) {
      match a
      case ScvVec(x) => CompareItemsSign(x, b.items);
      case ScvMap(x) => CompareEntriesSign(x, b.entries);
      case ScvSymbol(x) => CompareBytesOrder(Reencoded(x), Reencoded(b.name), []);
      case ScvString(x) => CompareBytesOrder(Reencoded(x), Reencoded(b.text), []);
      case ScvBytes(x) => CompareBytesOrder(x, b.bytes, []);
      case ScvAddress(x) =>
        CompareBytesOrder(XdrAddress(x), XdrAddress(b.address), []);
        if XdrAddress(x) == XdrAddress(b.address) {
          XdrAddressSplit(x, [], b.address, []);
        }
      case _ =>
        CompareBytesOrder(Xdr(a), Xdr(b), []);
        if Xdr(a) == Xdr(b) {
          XdrInjective(a, b);
        }
    }
  }

  lemma {:induction false} CompareItemsSign(a: seq<ScVal>, b: seq<ScVal>)
    requires forall i :: 0 <= i < |a| ==> IsEncodable(a[i])
    requires forall i :: 0 <= i < |b| ==> IsEncodable(b[i])
    ensures CompareItems(a, b) == 0 <==> DecodedItems(a) == DecodedItems(b)
    ensures Opposite(CompareItems(a, b), CompareItems(b, a))
    decreases a
  {
    if a != [] && b != [] {
      CompareSign(a[0], b[0]);
      CompareItemsSign(a[1..], b[1..]);
      var x, y := DecodedItems(a), DecodedItems(b);
      assert x[1..] == DecodedItems(a[1..]) && y[1..] == DecodedItems(b[1..]);
      assert x == [x[0]] + x[1..] && y == [y[0]] + y[1..];
    }
  }

  lemma {:induction false} CompareEntriesSign(a: seq<ScMapEntry>, b: seq<ScMapEntry>)
    requires forall i :: 0 <= i < |a| ==> IsEncodable(a[i].key) && IsEncodable(a[i].val)
    requires forall i :: 0 <= i < |b| ==> IsEncodable(b[i].key) && IsEncodable(b[i].val)
    ensures CompareEntries(a, b) == 0 <==> DecodedEntries(a) == DecodedEntries(b)
    ensures Opposite(CompareEntries(a, b), CompareEntries(b, a))
    decreases a
  {
    if a != [] && b != [] {
      CompareEntrySign(a[0], b[0]);
      CompareEntriesSign(a[1..], b[1..]);
      var x, y := DecodedEntries(a), DecodedEntries(b);
      assert x[1..] == DecodedEntries(a[1..]) && y[1..] == DecodedEntries(b[1..]);
      assert x == [x[0]] + x[1..] && y == [y[0]] + y[1..];
    }
  }

  lemma {:induction false} CompareEntrySign(a: ScMapEntry, b: ScMapEntry)
    requires IsEncodable(a.key) && IsEncodable(a.val) && IsEncodable(b.key) && IsEncodable(b.val)
    ensures CompareEntry(a, b) == 0 <==> DecodedEntry(a) == DecodedEntry(b)
    ensures Opposite(CompareEntry(a, b), CompareEntry(b, a))
    decreases a
  {
    CompareSign(a.key, b.key);
    CompareSign(a.val, b.val);
  }

  /** The host order is transitive, also across values that it does not tell apart. */
  lemma {:induction false} CompareTransitive(a: ScVal, b: ScVal, c: ScVal)
    requires IsEncodable(a) && IsEncodable(b) && IsEncodable(c)
    ensures IsChain(Compare(a, b), Compare(b, c), Compare(a, c))
    decreases a
  {
    if Discriminant(a) == Discriminant(b) == Discriminant(c) {
      match a
      case ScvVec(x) => CompareItemsTransitive(x, b.items, c.items);
      case ScvMap(x) => CompareEntriesTransitive(x, b.entries, c.entries);
      case ScvSymbol(x) => CompareBytesOrder(Reencoded(x), Reencoded(b.name), Reencoded(c.name));
      case ScvString(x) => CompareBytesOrder(Reencoded(x), Reencoded(b.text), Reencoded(c.text));
      case ScvBytes(x) => CompareBytesOrder(x, b.bytes, c.bytes);
      case ScvAddress(x) => CompareBytesOrder(XdrAddress(x), XdrAddress(b.address), XdrAddress(c.address));
      case _ => CompareBytesOrder(Xdr(a), Xdr(b), Xdr(c));
    }
  }

  lemma {:induction false} CompareItemsTransitive(a: seq<ScVal>, b: seq<ScVal>, c: seq<ScVal>)
    requires forall i :: 0 <= i < |a| ==> IsEncodable(a[i])
    requires forall i :: 0 <= i < |b| ==> IsEncodable(b[i])
    requires forall i :: 0 <= i < |c| ==> IsEncodable(c[i])
    ensures IsChain(CompareItems(a, b), CompareItems(b, c), CompareItems(a, c))
    decreases a
  {
    if a != [] && b != [] && c != [] {
      CompareTransitive(a[0], b[0], c[0]);
      CompareItemsTransitive(a[1..], b[1..], c[1..]);
    }
  }

  lemma {:induction false} CompareEntriesTransitive(a: seq<ScMapEntry>, b: seq<ScMapEntry>, c: seq<ScMapEntry>)
    requires forall i :: 0 <= i < |a| ==> IsEncodable(a[i].key) && IsEncodable(a[i].val)
    requires forall i :: 0 <= i < |b| ==> IsEncodable(b[i].key) && IsEncodable(b[i].val)
    requires forall i :: 0 <= i < |c| ==> IsEncodable(c[i].key) && IsEncodable(c[i].val)
    ensures IsChain(CompareEntries(a, b), CompareEntries(b, c), CompareEntries(a, c))
    decreases a
  {
    if a != [] && b != [] && c != [] {
      CompareEntryTransitive(a[0], b[0], c[0]);
      CompareEntriesTransitive(a[1..], b[1..], c[1..]);
    }
  }

  lemma {:induction false} CompareEntryTransitive(a: ScMapEntry, b: ScMapEntry, c: ScMapEntry)
    requires IsEncodable(a.key) && IsEncodable(a.val) && IsEncodable(b.key) && IsEncodable(b.val)
    requires IsEncodable(c.key) && IsEncodable(c.val)
    ensures IsChain(CompareEntry(a, b), CompareEntry(b, c), CompareEntry(a, c))
    decreases a
  {
    CompareTransitive(a.key, b.key, c.key);
    CompareTransitive(a.val, b.val, c.val);
  }

  // ------------------------------------------------- texts it cannot compare

  /**
   * Two symbols or strings, and so keys of a map, compare as equal exactly when
   * they decode to one text. On well-formed texts that is equality.
   */
  lemma TextsCoincideIff(x: Bytes, y: Bytes)
    ensures Compare(ScvString(x), ScvString(y)) == 0 <==> Reencoded(x) == Reencoded(y)
    ensures Compare(ScvSymbol(x), ScvSymbol(y)) == 0 <==> Reencoded(x) == Reencoded(y)
    ensures IsWellFormed(x) && IsWellFormed(y) ==> (Reencoded(x) == Reencoded(y) <==> x == y)
  {
    CompareBytesOrder(Reencoded(x), Reencoded(y), []);
    FixedIffWellFormed(x);
    FixedIffWellFormed(y);
  }

  /** Different strings that the comparison takes for equal. */
  lemma StrayBytesCompareEqual()
    ensures IsEncodable(ScvString([0x80])) && IsEncodable(ScvString([0x81]))
    ensures ScvString([0x80]) != ScvString([0x81])
    ensures Compare(ScvString([0x80]), ScvString([0x81])) == 0
  {
    StrayBytesCoincide(0x80, 0x81);
    TextsCoincideIff([0x80], [0x81]);
    assert [0x80][0] != [0x81][0];
  }
}
