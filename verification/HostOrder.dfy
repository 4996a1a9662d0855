/**
 * The order in which the host demands map keys, stated without `compareScVal`:
 * types by discriminant, bytes and texts lexicographically, vectors and maps by
 * the first element that differs, a proper prefix first.
 */
module HostOrder {
  import opened ByteStrings
  import opened Utf8
  import opened ScVals

  // ------------------------------------------------------------------ bytes

  /** The strings agree up to `k`, where `a` ends or has the smaller byte. */
  predicate BytesDecide(a: Bytes, b: Bytes, k: nat) {
    k <= |a| && k < |b| && a[..k] == b[..k] && (k < |a| ==> a[k] < b[k])
  }

  /** Lexicographic order. */
  ghost predicate BytesBefore(a: Bytes, b: Bytes) {
    exists k: nat :: BytesDecide(a, b, k)
  }

  lemma {:induction false} CompareBytesIsLexicographic(a: Bytes, b: Bytes)
    ensures CompareBytes(a, b) < 0 <==> BytesBefore(a, b)
  {
    if a == [] || b == [] {
      assert a == [] && b != [] ==> BytesDecide(a, b, 0);
    } else if a[0] != b[0] {
      assert a[0] < b[0] ==> BytesDecide(a, b, 0);
      assert forall k: nat :: k > 0 && k <= |a| && k < |b| ==> a[..k][0] != b[..k][0];
    } else {
      CompareBytesIsLexicographic(a[1..], b[1..]);
      TailsDecide(a, b);
    }
  }

  lemma TailsDecide(a: Bytes, b: Bytes)
    requires a != [] && b != [] && a[0] == b[0]
    ensures BytesBefore(a, b) <==> BytesBefore(a[1..], b[1..])
  {
    if k: nat :| BytesDecide(a[1..], b[1..], k) {
      assert a[..k + 1] == [a[0]] + a[1..][..k] && b[..k + 1] == [b[0]] + b[1..][..k];
      assert BytesDecide(a, b, k + 1);
    }
    if k: nat :| BytesDecide(a, b, k) {
      assert k > 0;
      assert a[1..][..k - 1] == a[..k][1..] && b[1..][..k - 1] == b[..k][1..];
      assert BytesDecide(a[1..], b[1..], k - 1);
    }
  }

  /** Behind parts of one length, the first parts decide unless they are equal. */
  lemma {:induction false} CompareConcat(p: Bytes, x: Bytes, q: Bytes, y: Bytes)
    requires |p| == |q|
    ensures CompareBytes(p + x, q + y) == if p == q then CompareBytes(x, y) else CompareBytes(p, q)
  {
    if p == [] {
      assert p + x == x && q + y == y;
    } else {
      assert (p + x)[1..] == p[1..] + x && (q + y)[1..] == q[1..] + y;
      assert p == [p[0]] + p[1..] && q == [q[0]] + q[1..];
      CompareConcat(p[1..], x, q[1..], y);
    }
  }

  lemma {:induction false} BytesOrderIsNumeric(a: Bytes, b: Bytes)
    requires |a| == |b|
    ensures CompareBytes(a, b) < 0 <==> ValueOf(a) < ValueOf(b)
    ensures ValueOf(a) == ValueOf(b) ==> a == b
  {
    if a != [] {
      var n := |a| - 1;
      BytesOrderIsNumeric(a[..n], b[..n]);
      assert a == a[..n] + [a[n]] && b == b[..n] + [b[n]];
      CompareConcat(a[..n], [a[n]], b[..n], [b[n]]);
      CompareBytesOrder(a[..n], b[..n], []);
    }
  }

  lemma U32OrderIsNumeric(n: nat, m: nat)
    requires n < U32_LIMIT && m < U32_LIMIT
    ensures CompareBytes(XdrU32(n), XdrU32(m)) < 0 <==> n < m
    ensures XdrU32(n) == XdrU32(m) <==> n == m
  {
    BytesOrderIsNumeric(XdrU32(n), XdrU32(m));
    assert Power(256, 4) == U32_LIMIT;
    ValueOfFixed(n, 4);
    ValueOfFixed(m, 4);
  }

  // ----------------------------------------------------------------- values

  /** The comparison cannot tell the values apart. */
  predicate IsSame(a: ScVal, b: ScVal) {
    Decoded(a) == Decoded(b)
  }

  ghost predicate HostBefore(a: ScVal, b: ScVal)
    decreases a
  {
    || Discriminant(a) < Discriminant(b)
    || (Discriminant(a) == Discriminant(b) &&
        match (a, b)
        case (ScvU32(n), ScvU32(m)) => n < m
        case (ScvScalar(_, x), ScvScalar(_, y)) => BytesBefore(x, y)
        case (ScvBytes(x), ScvBytes(y)) => BytesBefore(x, y)
        case (ScvString(x), ScvString(y)) => BytesBefore(Reencoded(x), Reencoded(y))
        case (ScvSymbol(x), ScvSymbol(y)) => BytesBefore(Reencoded(x), Reencoded(y))
        case (ScvVec(x), ScvVec(y)) => ItemsBefore(x, y)
        case (ScvMap(x), ScvMap(y)) => EntriesBefore(x, y)
        case (ScvAddress(x), ScvAddress(y)) => AddressBefore(x, y)
        case _ => false)
  }

  ghost predicate AddressBefore(a: ScAddress, b: ScAddress) {
    a.kind < b.kind || (a.kind == b.kind && BytesBefore(a.body, b.body))
  }

  ghost predicate ItemsBefore(x: seq<ScVal>, y: seq<ScVal>)
    decreases x, 1
  {
    exists k: nat :: ItemsDecide(x, y, k)
  }

  /** The items up to `k` are the same, and `x` ends there or has the earlier item. */
  ghost predicate ItemsDecide(x: seq<ScVal>, y: seq<ScVal>, k: nat)
    decreases x, 0
  {
    && k <= |x| && k < |y|
    && (forall i :: 0 <= i < k ==> IsSame(x[i], y[i]))
    && (k < |x| ==> HostBefore(x[k], y[k]))
  }

  ghost predicate EntriesBefore(x: seq<ScMapEntry>, y: seq<ScMapEntry>)
    decreases x, 1
  {
    exists k: nat :: EntriesDecide(x, y, k)
  }

  ghost predicate EntriesDecide(x: seq<ScMapEntry>, y: seq<ScMapEntry>, k: nat)
    decreases x, 0
  {
    && k <= |x| && k < |y|
    && (forall i :: 0 <= i < k ==> IsSame(x[i].key, y[i].key) && IsSame(x[i].val, y[i].val))
    && (k < |x| ==> EntryBefore(x[k], y[k]))
  }

  /** The keys decide, or else the values. */
  ghost predicate EntryBefore(a: ScMapEntry, b: ScMapEntry)
    decreases a
  {
    HostBefore(a.key, b.key) || (IsSame(a.key, b.key) && HostBefore(a.val, b.val))
  }

  lemma AddressOrder(a: ScAddress, b: ScAddress)
    requires IsAddress(a) && IsAddress(b)
    ensures CompareBytes(XdrAddress(a), XdrAddress(b)) < 0 <==> AddressBefore(a, b)
  {
    CompareConcat(XdrU32(a.kind), a.body, XdrU32(b.kind), b.body);
    U32OrderIsNumeric(a.kind, b.kind);
    CompareBytesIsLexicographic(a.body, b.body);
  }

  /** Behind one discriminant the arms decide. */
  lemma ArmsDecide(a: ScVal, b: ScVal)
    requires Discriminant(a) == Discriminant(b)
    ensures CompareBytes(Xdr(a), Xdr(b)) == CompareBytes(XdrArm(a), XdrArm(b))
  {
    CompareConcat(XdrU32(Discriminant(a)), XdrArm(a), XdrU32(Discriminant(b)), XdrArm(b));
  }

  /** `compareScVal` is negative exactly on values in host order. */
  lemma {:induction false} CompareIsHostOrder(a: ScVal, b: ScVal)
    requires IsEncodable(a) && IsEncodable(b)
    ensures Compare(a, b) < 0 <==> HostBefore(a, b)
    decreases a
  {
    if Discriminant(a) == Discriminant(b) {
      match a
      case ScvVoid => ArmsDecide(a, b);
      case ScvU32(n) => ArmsDecide(a, b); U32OrderIsNumeric(n, b.value);
      case ScvScalar(_, x) => ArmsDecide(a, b); CompareBytesIsLexicographic(x, b.body);
      case ScvBytes(x) => CompareBytesIsLexicographic(x, b.bytes);
      case ScvString(x) => CompareBytesIsLexicographic(Reencoded(x), Reencoded(b.text));
      case ScvSymbol(x) => CompareBytesIsLexicographic(Reencoded(x), Reencoded(b.name));
      case ScvVec(x) => ItemsOrder(x, b.items);
      case ScvMap(x) => EntriesOrder(x, b.entries);
      case ScvAddress(x) => AddressOrder(x, b.address);
    }
  }

  lemma {:induction false} ItemsOrder(x: seq<ScVal>, y: seq<ScVal>)
    requires forall i :: 0 <= i < |x| ==> IsEncodable(x[i])
    requires forall i :: 0 <= i < |y| ==> IsEncodable(y[i])
    ensures CompareItems(x, y) < 0 <==> ItemsBefore(x, y)
    decreases x
  {
    if x == [] || y == [] {
      assert x == [] && y != [] ==> ItemsDecide(x, y, 0);
    } else {
      CompareIsHostOrder(x[0], y[0]);
      CompareSign(x[0], y[0]);
      if Compare(x[0], y[0]) < 0 {
        assert ItemsDecide(x, y, 0);
      } else if Compare(x[0], y[0]) == 0 {
        ItemsOrder(x[1..], y[1..]);
        ItemTailsDecide(x, y);
      }
    }
  }

  lemma ItemTailsDecide(x: seq<ScVal>, y: seq<ScVal>)
    requires x != [] && y != [] && IsSame(x[0], y[0]) && !HostBefore(x[0], y[0])
    ensures ItemsBefore(x, y) <==> ItemsBefore(x[1..], y[1..])
  {
    if k: nat :| ItemsDecide(x[1..], y[1..], k) {
      forall i | 0 <= i < k + 1
        ensures IsSame(x[i], y[i])
      {
        assert i > 0 ==> x[i] == x[1..][i - 1] && y[i] == y[1..][i - 1];
      }
      assert ItemsDecide(x, y, k + 1);
    }
    if k: nat :| ItemsDecide(x, y, k) {
      assert k > 0;
      assert ItemsDecide(x[1..], y[1..], k - 1);
    }
  }

  lemma {:induction false} EntriesOrder(x: seq<ScMapEntry>, y: seq<ScMapEntry>)
    requires forall i :: 0 <= i < |x| ==> IsEncodable(x[i].key) && IsEncodable(x[i].val)
    requires forall i :: 0 <= i < |y| ==> IsEncodable(y[i].key) && IsEncodable(y[i].val)
    ensures CompareEntries(x, y) < 0 <==> EntriesBefore(x, y)
    decreases x
  {
    if x == [] || y == [] {
      assert x == [] && y != [] ==> EntriesDecide(x, y, 0);
    } else {
      EntryOrder(x[0], y[0]);
      if CompareEntry(x[0], y[0]) < 0 {
        assert EntriesDecide(x, y, 0);
      } else if CompareEntry(x[0], y[0]) == 0 {
        EntriesOrder(x[1..], y[1..]);
        EntryTailsDecide(x, y);
      }
    }
  }

  lemma {:induction false} EntryOrder(a: ScMapEntry, b: ScMapEntry)
    requires IsEncodable(a.key) && IsEncodable(a.val) && IsEncodable(b.key) && IsEncodable(b.val)
    ensures CompareEntry(a, b) < 0 <==> EntryBefore(a, b)
    ensures CompareEntry(a, b) == 0 <==> IsSame(a.key, b.key) && IsSame(a.val, b.val)
    decreases a
  {
    CompareIsHostOrder(a.key, b.key);
    CompareIsHostOrder(a.val, b.val);
    CompareSign(a.key, b.key);
    CompareSign(a.val, b.val);
  }

  lemma EntryTailsDecide(x: seq<ScMapEntry>, y: seq<ScMapEntry>)
    requires x != [] && y != [] && IsSame(x[0].key, y[0].key) && IsSame(x[0].val, y[0].val)
    requires !EntryBefore(x[0], y[0])
    ensures EntriesBefore(x, y) <==> EntriesBefore(x[1..], y[1..])
  {
    if k: nat :| EntriesDecide(x[1..], y[1..], k) {
      forall i | 0 <= i < k + 1
        ensures IsSame(x[i].key, y[i].key) && IsSame(x[i].val, y[i].val)
      {
        assert i > 0 ==> x[i] == x[1..][i - 1] && y[i] == y[1..][i - 1];
      }
      assert EntriesDecide(x, y, k + 1);
    }
    if k: nat :| EntriesDecide(x, y, k) {
      assert k > 0;
      assert EntriesDecide(x[1..], y[1..], k - 1);
    }
  }

  // --------------------------------------------------------- signed integers

  /** The two's complement value of a big-endian byte string. */
  function SignedValue(b: Bytes): int {
    if b != [] && b[0] >= 128 then ValueOf(b) - Power(256, |b|) else ValueOf(b)
  }

  predicate IsNegative(b: Bytes) {
    b != [] && b[0] >= 128
  }

  /** i32, i64, i128 and i256. */
  predicate IsSignedKind(kind: nat) {
    kind == 4 || kind == 6 || kind == 10 || kind == 12
  }

  lemma PowerIsEven(n: nat)
    requires n > 0
    ensures Power(256, n) == 2 * (Power(256, n) / 2)
  {
    assert Power(256, n) == 256 * Power(256, n - 1);
  }

  lemma HighBitStep(front: nat, last: byte, half: nat)
    ensures 2 * (front * 256 + last) >= 256 * (2 * half) <==> front >= half
  {
  }

  lemma {:induction false} HighBit(b: Bytes)
    requires b != []
    ensures b[0] >= 128 <==> 2 * ValueOf(b) >= Power(256, |b|)
  {
    if |b| == 1 {
      assert b[..0] == [] && Power(256, 1) == 256;
    } else {
      var front := b[..|b| - 1];
      HighBit(front);
      PowerIsEven(|front|);
      HighBitStep(ValueOf(front), b[|b| - 1], Power(256, |front|) / 2);
    }
  }

  /**
   * The comparison orders signed integers of one type as numbers exactly when
   * both or neither are negative; a negative one it puts behind all others.
   */
  lemma SignedOrderIff(kind: nat, x: Bytes, y: Bytes)
    requires IsSignedKind(kind) && IsEncodable(ScvScalar(kind, x)) && IsEncodable(ScvScalar(kind, y))
    ensures (Compare(ScvScalar(kind, x), ScvScalar(kind, y)) < 0 <==> SignedValue(x) < SignedValue(y))
       <==> (IsNegative(x) <==> IsNegative(y))
  {
    var a, b := ScvScalar(kind, x), ScvScalar(kind, y);
    ArmsDecide(a, b);
    assert XdrArm(a) == x && XdrArm(b) == y;
    BytesOrderIsNumeric(x, y);
    FixedValueOf(x);
    FixedValueOf(y);
    HighBit(x);
    HighBit(y);
  }

  lemma OneAndMinusOne()
    ensures SignedValue([0, 0, 0, 1]) == 1 && SignedValue([0xff, 0xff, 0xff, 0xff]) == -1
  {
    assert Fixed(1, 4) == [0, 0, 0, 1] && Fixed(0xffff_ffff, 4) == [0xff, 0xff, 0xff, 0xff];
    assert Power(256, 4) == U32_LIMIT;
    ValueOfFixed(1, 4);
    ValueOfFixed(0xffff_ffff, 4);
  }

  /** So -1 comes behind 1. */
  lemma NegativeComesLast()
    ensures
      var one, minusOne := [0, 0, 0, 1], [0xff, 0xff, 0xff, 0xff];
      && SignedValue(one) == 1 && SignedValue(minusOne) == -1
      && Compare(ScvScalar(4, one), ScvScalar(4, minusOne)) < 0
  {
    var one, minusOne := [0, 0, 0, 1], [0xff, 0xff, 0xff, 0xff];
    OneAndMinusOne();
    ArmsDecide(ScvScalar(4, one), ScvScalar(4, minusOne));
  }
}
