/** On-chain signer identities and the printed key that stands for them. */
module Signers {
  import opened ByteStrings
  import opened OrderedMaps

  datatype Signer =
    | Delegated(address: string)
    | External(verifier: string, keyData: Bytes)

  predicate SignersEqual(a: Signer, b: Signer) {
    match (a, b)
    case (Delegated(x), Delegated(y)) => x == y
    case (External(v, k), External(w, l)) => v == w && k == l
    case _ => false
  }

  function GetSignerKey(signer: Signer): string {
    match signer
    case Delegated(address) => "delegated:" + address
    case External(verifier, keyData) => "external:" + verifier + ":" + HexOf(keyData)
  }

  lemma HexHasNoColon(b: Bytes)
    ensures ':' !in HexOf(b)
  {
    HexOfIsLowerHex(b);
  }

  /** Colon-free tails after the last colon are determined, whatever precedes them. */
  lemma SplitAtLastColon(x: string, p: string, y: string, q: string)
    requires ':' !in p && ':' !in q
    requires x + ":" + p == y + ":" + q
    ensures x == y && p == q
  {
    var whole := x + ":" + p;
    assert whole[|x|] == ':' && whole[|y|] == ':';
    assert forall i :: |x| < i < |whole| ==> whole[i] == p[i - |x| - 1] && whole[i] in p;
    assert forall i :: |y| < i < |whole| ==> whole[i] == q[i - |y| - 1] && whole[i] in q;
    assert |x| == |y|;
    assert x == whole[..|x|] == y;
    assert p == whole[|x| + 1..] == q;
  }

  /**
   * The printed key identifies the signer: verifier texts may contain colons,
   * but the hex key data after the last one cannot.
   */
  lemma KeyIdentifiesSigner(a: Signer, b: Signer)
    ensures GetSignerKey(a) == GetSignerKey(b) <==> SignersEqual(a, b)
  {
    var p, q := GetSignerKey(a), GetSignerKey(b);
    if p == q {
      assert a.Delegated? <==> p[0] == 'd';
      assert b.Delegated? <==> q[0] == 'd';
      if a.Delegated? {
        assert p[10..] == a.address && q[10..] == b.address;
      } else {
        var x, y := "external:" + a.verifier, "external:" + b.verifier;
        HexHasNoColon(a.keyData);
        HexHasNoColon(b.keyData);
        SplitAtLastColon(x, HexOf(a.keyData), y, HexOf(b.keyData));
        assert x[9..] == a.verifier && y[9..] == b.verifier;
        HexOfInjective(a.keyData, b.keyData);
      }
    }
  }

  // -------------------------------------------------- collectUniqueSigners

  /** Each signer at the place where it first appears. */
  function FirstOccurrences(signers: seq<Signer>): (unique: seq<Signer>) {
    if signers == [] then []
    else
      var last := signers[|signers| - 1];
      var unique := FirstOccurrences(signers[..|signers| - 1]);
      if last in unique then unique else unique + [last]
  }

  /** The insertion-ordered map the method builds for a list of unique signers. */
  ghost predicate Represents(m: OrderedMap<string, Signer>, unique: seq<Signer>) {
    && |m| == |unique|
    && forall i :: 0 <= i < |m| ==> m[i] == Entry(GetSignerKey(unique[i]), unique[i])
  }

  lemma RepresentsHas(m: OrderedMap<string, Signer>, unique: seq<Signer>, signer: Signer)
    requires Represents(m, unique)
    ensures Has(m, GetSignerKey(signer)) <==> signer in unique
  {
    HasIffEntry(m, GetSignerKey(signer));
    forall i | 0 <= i < |m|
      ensures m[i].key == GetSignerKey(signer) <==> unique[i] == signer
    {
      KeyIdentifiesSigner(unique[i], signer);
    }
  }

  method CollectUniqueSigners(signers: seq<Signer>) returns (unique: seq<Signer>)
    ensures unique == FirstOccurrences(signers)
  {
    var signerMap: OrderedMap<string, Signer> := [];
    for i := 0 to |signers|
      invariant Represents(signerMap, FirstOccurrences(signers[..i]))
    {
      var key := GetSignerKey(signers[i]);
      assert signers[..i + 1][..i] == signers[..i];
      RepresentsHas(signerMap, FirstOccurrences(signers[..i]), signers[i]);
      if !Has(signerMap, key) {
        SetAbsent(signerMap, key, signers[i]);
        signerMap := Set(signerMap, key, signers[i]);
      }
    }
    assert signers[..|signers|] == signers;
    unique := seq(|signerMap|, i requires 0 <= i < |signerMap| => signerMap[i].value);
  }

  ghost predicate PairwiseUnequal(signers: seq<Signer>) {
    forall i, j :: 0 <= i < j < |signers| ==> !SignersEqual(signers[i], signers[j])
  }

  /** The position where a listed signer first appears. */
  function FirstIndex(signers: seq<Signer>, signer: Signer): (i: nat)
    requires signer in signers
    ensures i < |signers| && signers[i] == signer && signer !in signers[..i]
  {
    if signers[0] == signer then 0
    else
      assert signers == [signers[0]] + signers[1..];
      var i := FirstIndex(signers[1..], signer);
      assert signers[..i + 1] == [signers[0]] + signers[1..][..i];
      i + 1
  }

  lemma {:induction false} FirstOccurrencesCover(signers: seq<Signer>)
    ensures PairwiseUnequal(FirstOccurrences(signers))
    ensures forall s :: s in FirstOccurrences(signers) <==> s in signers
  {
    if signers != [] {
      var front := signers[..|signers| - 1];
      FirstOccurrencesCover(front);
      assert signers == front + [signers[|signers| - 1]];
    }
  }

  lemma FirstIndexOfPrefix(signers: seq<Signer>, n: nat, signer: Signer)
    requires n <= |signers| && signer in signers[..n]
    ensures signer in signers
    ensures FirstIndex(signers, signer) == FirstIndex(signers[..n], signer)
  {
    var i, j := FirstIndex(signers[..n], signer), FirstIndex(signers, signer);
    assert signers[i] == signer;
    assert forall k :: 0 <= k < i ==> signers[..n][..i][k] == signers[k];
    assert forall k :: 0 <= k < j ==> signers[k] in signers[..j];
  }

  /** The result lists signers in the order of their first appearance. */
  lemma {:induction false} FirstOccurrencesOrder(signers: seq<Signer>, i: nat, j: nat)
    requires i < j < |FirstOccurrences(signers)|
    ensures var unique := FirstOccurrences(signers);
            && unique[i] in signers && unique[j] in signers
            && FirstIndex(signers, unique[i]) < FirstIndex(signers, unique[j])
  {
    var n := |signers| - 1;
    var front, unique := signers[..n], FirstOccurrences(signers);
    FirstOccurrencesCover(signers);
    FirstOccurrencesCover(front);
    assert unique[i] in signers && unique[j] in signers;
    assert unique[i] == FirstOccurrences(front)[i] && unique[i] in front;
    FirstIndexOfPrefix(signers, n, unique[i]);
    if j < |FirstOccurrences(front)| {
      FirstOccurrencesOrder(front, i, j);
      FirstIndexOfPrefix(signers, n, unique[j]);
    } else {
      assert unique[j] == signers[n] && signers[n] !in front;
      assert forall k :: 0 <= k < n ==> signers[k] in front;
    }
  }

  lemma {:induction false} UniqueIsFixed(signers: seq<Signer>)
    requires PairwiseUnequal(signers)
    ensures FirstOccurrences(signers) == signers
  {
    if signers != [] {
      var front, last := signers[..|signers| - 1], signers[|signers| - 1];
      UniqueIsFixed(front);
      assert last !in front;
      assert signers == front + [last];
    }
  }

  lemma FirstOccurrencesIdempotent(signers: seq<Signer>)
    ensures FirstOccurrences(FirstOccurrences(signers)) == FirstOccurrences(signers)
  {
    FirstOccurrencesCover(signers);
    UniqueIsFixed(FirstOccurrences(signers));
  }
}
