/** What the external-signer manager promises its callers. */
module ExternalSignerProperties {
  import opened Wrappers
  import opened OrderedMaps
  import opened WalletAdapter
  import opened ExternalSigners

  // ------------------------------------------------- getAll and canSignFor

  /** How many keypair or wallet entries a list has for an address. */
  function CountFor(signers: seq<ExternalSigner>, address: string): nat {
    if signers == [] then 0
    else
      (if !signers[0].Ed25519Signer? && signers[0].address == address then 1 else 0)
      + CountFor(signers[1..], address)
  }

  lemma {:induction false} CountForConcat(a: seq<ExternalSigner>, b: seq<ExternalSigner>, address: string)
    ensures CountFor(a + b, address) == CountFor(a, address) + CountFor(b, address)
  {
    if a == [] {
      assert a + b == b;
    } else {
      assert (a + b)[1..] == a[1..] + b;
      CountForConcat(a[1..], b, address);
    }
  }

  lemma {:induction false} CountKeypairs(m: OrderedMap<string, string>, address: string)
    requires Distinct(m)
    ensures CountFor(KeypairSigners(m), address) == if Has(m, address) then 1 else 0
  {
    if m != [] {
      CountKeypairs(m[1..], address);
    }
  }

  lemma {:induction false} CountEd25519(m: OrderedMap<string, Ed25519Key>, address: string)
    ensures CountFor(Ed25519Signers(m), address) == 0
  {
    if m != [] {
      CountEd25519(m[1..], address);
    }
  }

  lemma {:induction false} CountWallets(
    m: OrderedMap<string, ConnectedWallet>, keypairs: OrderedMap<string, string>, address: string)
    requires Distinct(m) && AreFiled(m)
    ensures CountFor(WalletSigners(m, keypairs), address)
         == if Has(m, address) && !Has(keypairs, address) then 1 else 0
  {
    if m != [] {
      CountWallets(m[1..], keypairs, address);
      var w := m[0].value;
      if !Has(keypairs, w.address) {
        var rest := WalletSigners(m[1..], keypairs);
        assert ([WalletSigner(w.address, w.walletId, w.walletName)] + rest)[1..] == rest;
      } else {
        assert [] + WalletSigners(m[1..], keypairs) == WalletSigners(m[1..], keypairs);
      }
    }
  }

  /**
   * `getAll` has exactly one keypair or wallet entry for each address that
   * `canSignFor` accepts, and none for any other.
   */
  lemma ListedOnceIffCanSign(m: Manager, address: string)
    requires ManagerOk(m)
    ensures CountFor(GetAll(m), address) == if CanSignFor(m, address) then 1 else 0
  {
    var k, e, w := KeypairSigners(m.keypairs), Ed25519Signers(m.ed25519), WalletSigners(WalletsOf(m), m.keypairs);
    CountForConcat(k + e, w, address);
    CountForConcat(k, e, address);
    CountKeypairs(m.keypairs, address);
    CountEd25519(m.ed25519, address);
    if m.adapter.Some? {
      CountWallets(WalletsOf(m), m.keypairs, address);
    }
  }

  /** `signAuthEntry` finds a signatory for exactly those addresses, and never a refusing wallet. */
  lemma SignsIffCanSign(m: Manager, address: string)
    requires ManagerOk(m)
    ensures SignAuthEntry(m, address) == NotFound <==> !CanSignFor(m, address)
    ensures CanSignFor(m, address) ==>
              SignAuthEntry(m, address) == if Has(m.keypairs, address) then ByKeypair(address) else ByKit(address)
  {
    if Has(m.keypairs, address) {
      OwnKeypair(m.keypairs, address);
    }
    if m.adapter.Some? {
      HasIffEntry(WalletsOf(m), address);
    }
  }

  // ----------------------------------------------------------------- remove

  function Others(signers: seq<ExternalSigner>, address: string): seq<ExternalSigner> {
    if signers == [] then []
    else (if signers[0].address != address then [signers[0]] else []) + Others(signers[1..], address)
  }

  lemma {:induction false} OthersConcat(a: seq<ExternalSigner>, b: seq<ExternalSigner>, address: string)
    ensures Others(a + b, address) == Others(a, address) + Others(b, address)
  {
    if a == [] {
      assert a + b == b;
    } else {
      assert (a + b)[1..] == a[1..] + b;
      OthersConcat(a[1..], b, address);
    }
  }

  lemma OthersCons(head: ExternalSigner, tail: seq<ExternalSigner>, address: string)
    ensures Others([head] + tail, address)
         == if head.address != address then [head] + Others(tail, address) else Others(tail, address)
  {
    assert ([head] + tail)[1..] == tail;
  }

  lemma {:induction false} DeleteAbsent<K, V>(m: OrderedMap<K, V>, k: K)
    requires !Has(m, k)
    ensures Delete(m, k) == m
  {
    if m != [] {
      DeleteAbsent(m[1..], k);
    }
  }

  lemma {:induction false} OtherKeypairs(m: OrderedMap<string, string>, address: string)
    requires Distinct(m)
    ensures KeypairSigners(Delete(m, address)) == Others(KeypairSigners(m), address)
  {
    if m != [] {
      OtherKeypairs(m[1..], address);
      OthersCons(KeypairSigner(m[0].key), KeypairSigners(m[1..]), address);
      if m[0].key == address {
        DeleteAbsent(m[1..], address);
      } else {
        assert Delete(m, address)[1..] == Delete(m[1..], address);
      }
    }
  }

  lemma {:induction false} OtherEd25519(m: OrderedMap<string, Ed25519Key>, address: string)
    ensures Ed25519Signers(WithoutKey(m, address)) == Others(Ed25519Signers(m), address)
  {
    if m != [] {
      OtherEd25519(m[1..], address);
      OthersCons(
        Ed25519Signer(m[0].value.address, m[0].value.verifier, m[0].key), Ed25519Signers(m[1..]), address);
      var rest := WithoutKey(m[1..], address);
      assert ([m[0]] + rest)[1..] == rest && [] + rest == rest;
    }
  }

  lemma {:induction false} OtherWallets(
    m: OrderedMap<string, ConnectedWallet>, keypairs: OrderedMap<string, string>, address: string)
    requires Distinct(m) && AreFiled(m) && Distinct(keypairs)
    ensures WalletSigners(Delete(m, address), Delete(keypairs, address)) == Others(WalletSigners(m, keypairs), address)
  {
    if m != [] {
      var tail := m[1..];
      OtherWallets(tail, keypairs, address);
      var w := m[0].value;
      OthersCons(WalletSigner(w.address, w.walletId, w.walletName), WalletSigners(tail, keypairs), address);
      GetAfterDelete(keypairs, address, w.address);
      assert [] + WalletSigners(tail, keypairs) == WalletSigners(tail, keypairs);
      if m[0].key == address {
        DeleteAbsent(tail, address);
      } else {
        assert Delete(m, address)[1..] == Delete(tail, address);
        assert [] + WalletSigners(Delete(tail, address), Delete(keypairs, address))
            == WalletSigners(Delete(tail, address), Delete(keypairs, address));
      }
    }
  }

  lemma OthersOfThree(k: seq<ExternalSigner>, e: seq<ExternalSigner>, w: seq<ExternalSigner>, address: string)
    ensures Others(k + e + w, address) == Others(k, address) + Others(e, address) + Others(w, address)
  {
    OthersConcat(k + e, w, address);
    OthersConcat(k, e, address);
  }

  lemma WalletsAfterRemove(m: Manager, address: string)
    requires ManagerOk(m)
    ensures Distinct(WalletsOf(m)) && AreFiled(WalletsOf(m))
    ensures WalletsOf(Remove(m, address)) == Delete(WalletsOf(m), address)
  {
  }

  /**
   * `remove(a)` leaves every signer and stored entry of the other addresses as it
   * was, in order, and none for `a`.
   */
  lemma RemoveKeepsExactlyOthers(m: Manager, address: string)
    requires ManagerOk(m)
    ensures GetAll(Remove(m, address)) == Others(GetAll(m), address)
    ensures GetStored(Remove(m, address).storage) == Without(GetStored(m.storage), address)
  {
    WalletsAfterRemove(m, address);
    OthersOfThree(
      KeypairSigners(m.keypairs), Ed25519Signers(m.ed25519), WalletSigners(WalletsOf(m), m.keypairs), address);
    OtherKeypairs(m.keypairs, address);
    OtherEd25519(m.ed25519, address);
    OtherWallets(WalletsOf(m), m.keypairs, address);
  }

  /** Afterwards `canSignFor` is what it was, except for `a`. */
  lemma RemoveStopsOnly(m: Manager, address: string, other: string)
    requires ManagerOk(m)
    ensures CanSignFor(Remove(m, address), other) <==> other != address && CanSignFor(m, other)
  {
    GetAfterDelete(m.keypairs, address, other);
    GetAfterDelete(WalletsOf(m), address, other);
  }

  /**
   * `removeAll` clears everything exactly when the adapter can disconnect. Where
   * it throws, in particular before `init`, the stored list survives.
   */
  lemma RemoveAllClearsIff(m: Manager, succeeds: bool)
    requires ManagerOk(m)
    ensures
      var o := RemoveAll(m, succeeds);
      && (o.result.Ok? <==> m.adapter.None? || (m.adapter.value.initialized && succeeds))
      && (o.result.Ok? ==> GetAll(o.next) == [] && GetStored(o.next.storage) == [])
      && (o.result.Err? ==> o.next.storage == m.storage && WalletsOf(o.next) == WalletsOf(m))
  {
  }

  // ---------------------------------------------------------------- restore

  /** The adapter tracks the wallet that the kit answers with, and returns it. */
  predicate Succeeds(m: Manager, answer: Answer) {
    m.adapter.Some? && m.adapter.value.initialized && HasAddress(answer) && answer.callback.Returns?
  }

  function WalletFor(saved: StoredWallet, answer: Answer): ConnectedWallet
    requires HasAddress(answer)
  {
    WalletOf(answer, saved.walletId, saved.walletId)
  }

  /** The loop of `restoreConnections` when the kit gives these answers in turn. */
  function RestoreLoop(m: Manager, answers: seq<Answer>): Manager
    requires |answers| == |m.pending| && (m.pending != [] ==> m.adapter.Some?)
    decreases |answers|
  {
    if answers == [] then m else RestoreLoop(RestoreNext(m, answers[0]), answers[1..])
  }

  /** The stored wallets whose reconnection succeeds. */
  function Reconnectable(m: Manager, stored: seq<StoredWallet>, answers: seq<Answer>): seq<StoredWallet>
    requires |answers| == |stored|
  {
    if stored == [] then []
    else
      (if Succeeds(m, answers[0]) then [stored[0]] else []) + Reconnectable(m, stored[1..], answers[1..])
  }

  function ReconnectedWallets(m: Manager, stored: seq<StoredWallet>, answers: seq<Answer>): seq<ConnectedWallet>
    requires |answers| == |stored|
  {
    if stored == [] then []
    else
      (if Succeeds(m, answers[0]) then [WalletFor(stored[0], answers[0])] else [])
      + ReconnectedWallets(m, stored[1..], answers[1..])
  }

  lemma {:induction false} WithoutAbsent(stored: seq<StoredWallet>, address: string)
    requires !HasStored(stored, address)
    ensures Without(stored, address) == stored
  {
    if stored != [] {
      assert stored[0].address != address;
      assert forall i :: 0 <= i < |stored[1..]| ==> stored[1..][i] == stored[i + 1];
      WithoutAbsent(stored[1..], address);
    }
  }

  lemma {:induction false} WithoutConcat(a: seq<StoredWallet>, b: seq<StoredWallet>, address: string)
    ensures Without(a + b, address) == Without(a, address) + Without(b, address)
  {
    if a == [] {
      assert a + b == b;
    } else {
      assert (a + b)[1..] == a[1..] + b;
      WithoutConcat(a[1..], b, address);
    }
  }

  lemma MiddleIsAlone(before: seq<StoredWallet>, entry: StoredWallet, after: seq<StoredWallet>)
    requires DistinctStored(before + [entry] + after)
    ensures !HasStored(before, entry.address) && !HasStored(after, entry.address)
  {
    var all := before + [entry] + after;
    assert all[|before|] == entry;
    assert forall i :: 0 <= i < |before| ==> all[i] == before[i];
    assert forall i :: 0 <= i < |after| ==> all[|before| + 1 + i] == after[i];
  }

  lemma DistinctWithoutMiddle(before: seq<StoredWallet>, entry: StoredWallet, after: seq<StoredWallet>)
    requires DistinctStored(before + [entry] + after)
    ensures DistinctStored(before + after)
  {
    var all, rest := before + [entry] + after, before + after;
    forall i, j | 0 <= i < j < |rest|
      ensures rest[i].address != rest[j].address
    {
      var i', j' := if i < |before| then i else i + 1, if j < |before| then j else j + 1;
      assert rest[i] == all[i'] && rest[j] == all[j'];
    }
  }

  /** Among distinct addresses, dropping the one in the middle drops just that entry. */
  lemma DropMiddle(before: seq<StoredWallet>, entry: StoredWallet, after: seq<StoredWallet>)
    requires DistinctStored(before + [entry] + after)
    ensures Without(before + [entry] + after, entry.address) == before + after
  {
    MiddleIsAlone(before, entry, after);
    WithoutConcat(before + [entry], after, entry.address);
    WithoutConcat(before, [entry], entry.address);
    WithoutAbsent(before, entry.address);
    WithoutAbsent(after, entry.address);
  }

  lemma {:induction false} SameAdapterSameSuccess(
    m: Manager, n: Manager, stored: seq<StoredWallet>, answers: seq<Answer>)
    requires |answers| == |stored| && m.adapter.Some? && n.adapter.Some?
    requires m.adapter.value.initialized == n.adapter.value.initialized
    ensures Reconnectable(m, stored, answers) == Reconnectable(n, stored, answers)
    ensures ReconnectedWallets(m, stored, answers) == ReconnectedWallets(n, stored, answers)
  {
    if stored != [] {
      SameAdapterSameSuccess(m, n, stored[1..], answers[1..]);
    }
  }

  /** Midway through the loop, having kept `kept`. */
  ghost predicate IsRestoring(m: Manager, kept: seq<StoredWallet>) {
    && m.storage.Some? && m.adapter.Some?
    && GetStored(m.storage) == kept + m.pending
    && DistinctStored(kept + m.pending)
  }

  lemma RestoreNextMeaning(m: Manager, answer: Answer, kept: seq<StoredWallet>)
    requires IsRestoring(m, kept) && m.pending != []
    ensures
      var next := RestoreNext(m, answer);
      && IsRestoring(next, if Succeeds(m, answer) then kept + [m.pending[0]] else kept)
      && next.pending == m.pending[1..] && next.restored == m.restored
      && next.adapter.value.initialized == m.adapter.value.initialized
      && next.reconnected == m.reconnected
         + (if Succeeds(m, answer) then [WalletFor(m.pending[0], answer)] else [])
  {
    assert kept + m.pending == kept + [m.pending[0]] + m.pending[1..];
    if !Succeeds(m, answer) {
      DropMiddle(kept, m.pending[0], m.pending[1..]);
      DistinctWithoutMiddle(kept, m.pending[0], m.pending[1..]);
      assert m.reconnected + [] == m.reconnected;
    }
  }

  lemma {:induction false} RestoreLoopMeaning(m: Manager, answers: seq<Answer>, kept: seq<StoredWallet>)
    requires IsRestoring(m, kept) && |answers| == |m.pending|
    ensures
      var t := RestoreLoop(m, answers);
      && GetStored(t.storage) == kept + Reconnectable(m, m.pending, answers)
      && t.reconnected == m.reconnected + ReconnectedWallets(m, m.pending, answers)
      && t.pending == [] && t.restored == m.restored
    decreases |answers|
  {
    if answers == [] {
      assert m.reconnected + [] == m.reconnected;
    } else {
      var next := RestoreNext(m, answers[0]);
      RestoreNextMeaning(m, answers[0], kept);
      var kept' := if Succeeds(m, answers[0]) then kept + [m.pending[0]] else kept;
      RestoreLoopMeaning(next, answers[1..], kept');
      RegroupKept(m, next, kept, answers);
      RegroupReconnected(m, next, answers);
    }
  }

  lemma RegroupKept(m: Manager, next: Manager, kept: seq<StoredWallet>, answers: seq<Answer>)
    requires |answers| == |m.pending| > 0 && m.adapter.Some? && next.adapter.Some?
    requires next.adapter.value.initialized == m.adapter.value.initialized
    ensures
      var kept' := if Succeeds(m, answers[0]) then kept + [m.pending[0]] else kept;
      kept' + Reconnectable(next, m.pending[1..], answers[1..]) == kept + Reconnectable(m, m.pending, answers)
  {
    SameAdapterSameSuccess(m, next, m.pending[1..], answers[1..]);
  }

  lemma RegroupReconnected(m: Manager, next: Manager, answers: seq<Answer>)
    requires |answers| == |m.pending| > 0 && m.adapter.Some? && next.adapter.Some?
    requires next.adapter.value.initialized == m.adapter.value.initialized
    ensures
      var first := if Succeeds(m, answers[0]) then [WalletFor(m.pending[0], answers[0])] else [];
      m.reconnected + first + ReconnectedWallets(next, m.pending[1..], answers[1..])
        == m.reconnected + ReconnectedWallets(m, m.pending, answers)
  {
    SameAdapterSameSuccess(m, next, m.pending[1..], answers[1..]);
  }

  /**
   * `restoreConnections` iterates a snapshot while it rewrites the store. It
   * leaves exactly the stored wallets whose reconnection succeeded, in their old
   * order, and returns one wallet for each of them.
   */
  lemma RestoreKeepsExactlySucceeded(m: Manager, answers: seq<Answer>)
    requires ManagerOk(m) && !m.restored && m.storage.Some? && m.adapter.Some?
    requires |answers| == |GetStored(m.storage)|
    ensures
      var stored, t := GetStored(m.storage), RestoreLoop(BeginRestore(m), answers);
      && GetStored(t.storage) == Reconnectable(m, stored, answers)
      && t.reconnected == ReconnectedWallets(m, stored, answers)
      && |t.reconnected| == |GetStored(t.storage)|
      && t.restored && t.pending == []
  {
    var stored := GetStored(m.storage);
    assert [] + stored == stored;
    RestoreLoopMeaning(BeginRestore(m), answers, []);
    SameAdapterSameSuccess(m, BeginRestore(m), stored, answers);
    OneWalletEach(m, stored, answers);
    assert [] + Reconnectable(m, stored, answers) == Reconnectable(m, stored, answers);
    assert [] + ReconnectedWallets(m, stored, answers) == ReconnectedWallets(m, stored, answers);
  }

  /** Everything reconnected so far can be signed for. */
  ghost predicate ReconnectedCanSign(m: Manager) {
    forall i :: 0 <= i < |m.reconnected| ==> CanSignFor(m, m.reconnected[i].address)
  }

  lemma RestoreNextCanSign(m: Manager, answer: Answer)
    requires ReconnectedCanSign(m)
    ensures ReconnectedCanSign(RestoreNext(m, answer))
  {
    if m.pending != [] && m.adapter.Some? && m.adapter.value.initialized && HasAddress(answer) {
      var wallet := WalletFor(m.pending[0], answer);
      forall a
        ensures Has(WalletsOf(RestoreNext(m, answer)), a) <==> a == wallet.address || Has(WalletsOf(m), a)
      {
        GetAfterSet(WalletsOf(m), wallet.address, wallet, a);
      }
    }
  }

  /** The manager can sign for every wallet that a restore returns. */
  lemma {:induction false} RestoredWalletsCanSign(m: Manager, answers: seq<Answer>)
    requires |answers| == |m.pending| && (m.pending != [] ==> m.adapter.Some?)
    requires ReconnectedCanSign(m)
    ensures ReconnectedCanSign(RestoreLoop(m, answers))
    decreases |answers|
  {
    if answers != [] {
      RestoreNextCanSign(m, answers[0]);
      RestoredWalletsCanSign(RestoreNext(m, answers[0]), answers[1..]);
    }
  }

  lemma {:induction false} OneWalletEach(m: Manager, stored: seq<StoredWallet>, answers: seq<Answer>)
    requires |answers| == |stored|
    ensures |ReconnectedWallets(m, stored, answers)| == |Reconnectable(m, stored, answers)|
  {
    if stored != [] {
      OneWalletEach(m, stored[1..], answers[1..]);
    }
  }

  lemma {:induction false} AllReconnectable(m: Manager, stored: seq<StoredWallet>, answers: seq<Answer>)
    requires |answers| == |stored| && forall i :: 0 <= i < |answers| ==> Succeeds(m, answers[i])
    ensures Reconnectable(m, stored, answers) == stored
  {
    if stored != [] {
      AllReconnectable(m, stored[1..], answers[1..]);
      assert stored == [stored[0]] + stored[1..];
    }
  }

  /**
   * Wallets come back after a `removeAll` that was called before `init`: the next
   * session on the same store restores every stored wallet that reconnects, as if
   * nothing had been removed.
   */
  lemma FailedRemoveAllComesBack(m: Manager, succeeds: bool, adapter: Adapter, answers: seq<Answer>)
    requires ManagerOk(m) && m.adapter.Some? && !m.adapter.value.initialized && m.storage.Some?
    requires AdapterOk(adapter) && adapter.initialized && |answers| == |GetStored(m.storage)|
    requires forall i :: 0 <= i < |answers| ==> HasAddress(answers[i]) && answers[i].callback.Returns?
    ensures RemoveAll(m, succeeds).result.Err?
    ensures
      var next := NewManager(Some(adapter), RemoveAll(m, succeeds).next.storage);
      var t := RestoreLoop(BeginRestore(next), answers);
      && GetStored(t.storage) == GetStored(m.storage)
      && |t.reconnected| == |GetStored(m.storage)|
      && ReconnectedCanSign(t)
  {
    RemoveAllClearsIff(m, succeeds);
    var next := NewManager(Some(adapter), RemoveAll(m, succeeds).next.storage);
    RestoreKeepsExactlySucceeded(next, answers);
    AllReconnectable(next, GetStored(m.storage), answers);
    RestoredWalletsCanSign(BeginRestore(next), answers);
  }

  /**
   * Once a restore is over, no action ever starts another: whatever happens, a
   * later `restoreConnections` changes nothing and so makes no reconnect call.
   */
  lemma {:induction false} RestoresOnlyOnce(m: Manager, actions: seq<Action>)
    requires m.restored && m.pending == []
    ensures
      var t := Run(m, actions);
      && t.restored && t.pending == []
      && BeginRestore(t) == t
      && forall answer :: RestoreNext(t, answer) == t
    decreases |actions|
  {
    if actions != [] {
      RestoresOnlyOnce(Step(m, actions[0]), actions[1..]);
    }
  }
}
