/** The manager as an object that updates its maps, its adapter and the store in place. */
module ExternalSignerManagers {
  import opened Wrappers
  import opened OrderedMaps
  import opened WalletAdapter
  import opened ExternalSigners
  import opened ExternalSignerProperties

  lemma {:induction false} WithoutKeyConcat(
    a: OrderedMap<string, Ed25519Key>, b: OrderedMap<string, Ed25519Key>, address: string)
    ensures WithoutKey(a + b, address) == WithoutKey(a, address) + WithoutKey(b, address)
  {
    if a == [] {
      assert a + b == b;
    } else {
      assert (a + b)[1..] == a[1..] + b;
      WithoutKeyConcat(a[1..], b, address);
    }
  }

  lemma {:induction false} WalletSignersConcat(
    a: OrderedMap<string, ConnectedWallet>, b: OrderedMap<string, ConnectedWallet>,
    keypairs: OrderedMap<string, string>)
    ensures WalletSigners(a + b, keypairs) == WalletSigners(a, keypairs) + WalletSigners(b, keypairs)
  {
    if a == [] {
      assert a + b == b;
    } else {
      assert (a + b)[1..] == a[1..] + b;
      WalletSignersConcat(a[1..], b, keypairs);
    }
  }

  class ExternalSignerManager {
    var keypairSigners: OrderedMap<string, string>
    var ed25519Signers: OrderedMap<string, Ed25519Key>
    const walletAdapter: StellarWalletsKitAdapter?
    var storage: Option<Item>
    var restored: bool
    var pending: seq<StoredWallet>
    var reconnected: seq<ConnectedWallet>

    ghost function View(): Manager
      reads this, walletAdapter
    {
      Manager(
        keypairSigners, ed25519Signers, if walletAdapter == null then None else Some(walletAdapter.View()),
        storage, restored, pending, reconnected)
    }

    constructor (adapter: StellarWalletsKitAdapter?, storage: Option<Item>)
      ensures walletAdapter == adapter
      ensures View() == NewManager(if adapter == null then None else Some(adapter.View()), storage)
    {
      keypairSigners, ed25519Signers, walletAdapter := [], [], adapter;
      this.storage, restored, pending, reconnected := storage, false, [], [];
    }

    /** `keypair`: the address of the secret key, None if it is invalid. */
    method AddSecret(keypair: Option<string>) returns (address: Option<string>)
      modifies this`keypairSigners
      ensures View() == Step(old(View()), AddFromSecret(keypair))
      ensures address == keypair
    {
      if keypair.Some? {
        keypairSigners := Set(keypairSigners, keypair.value, keypair.value);
      }
      address := keypair;
    }

    method AddEd25519Secret(key: Option<(string, Ed25519Key)>)
      modifies this`ed25519Signers
      ensures View() == Step(old(View()), AddEd25519(key))
    {
      if key.Some? {
        ed25519Signers := Set(ed25519Signers, key.value.0, key.value.1);
      }
    }

    method FilterStored(address: string) returns (filtered: seq<StoredWallet>)
      ensures filtered == Without(GetStored(storage), address)
    {
      var stored := GetStored(storage);
      filtered := [];
      for i := 0 to |stored|
        invariant filtered == Without(stored[..i], address)
      {
        assert stored[..i + 1] == stored[..i] + [stored[i]];
        WithoutConcat(stored[..i], [stored[i]], address);
        if stored[i].address != address {
          filtered := filtered + [stored[i]];
        }
      }
      assert stored[..|stored|] == stored;
    }

    method RemoveWalletFromStorage(address: string)
      modifies this`storage
      ensures storage == Dropped(old(storage), address)
    {
      if storage == None {
        return;
      }
      var filtered := FilterStored(address);
      storage := Some(if filtered == [] then Absent else List(filtered));
    }

    method SaveWalletToStorage(wallet: ConnectedWallet, now: int)
      modifies this`storage
      ensures storage == Saved(old(storage), wallet, now)
    {
      if storage == None {
        return;
      }
      var filtered := FilterStored(wallet.address);
      var entry := StoredWallet(wallet.address, wallet.walletId, wallet.walletName, now);
      storage := Some(List(filtered + [entry]));
    }

    method AddFromWallet(answer: Answer, now: int) returns (result: Result<Option<ConnectedWallet>, AdapterError>)
      modifies this`storage, walletAdapter
      ensures View() == Step(old(View()), AddWallet(answer, now))
      ensures result == if walletAdapter == null then Err(NoAdapter)
                        else Connect(old(walletAdapter.View()), answer).result
    {
      if walletAdapter == null {
        return Err(NoAdapter);
      }
      result := walletAdapter.DoConnect(answer);
      if result.Ok? && result.value.Some? {
        SaveWalletToStorage(result.value.value, now);
      }
    }

    /** One iteration of the loop below. */
    method ReconnectNext(answer: Answer)
      requires pending != [] && walletAdapter != null
      modifies this`storage, this`pending, this`reconnected, walletAdapter
      ensures View() == RestoreNext(old(View()), answer)
    {
      var saved := pending[0];
      pending := pending[1..];
      var result := walletAdapter.DoReconnect(saved.walletId, answer);
      if result.Ok? && result.value.Some? {
        reconnected := reconnected + [result.value.value];
      } else {
        RemoveWalletFromStorage(saved.address);
      }
    }

    /** `answers`: what the kit answers to the reconnect calls, in turn. */
    method RestoreConnections(answers: seq<Answer>) returns (wallets: seq<ConnectedWallet>)
      requires pending == [] && |answers| == |BeginRestore(View()).pending|
      modifies this`storage, this`restored, this`pending, this`reconnected, walletAdapter
      ensures View() == RestoreLoop(BeginRestore(old(View())), answers)
      ensures old(restored) ==> wallets == GetConnectedWallets(WalletsOf(View()))
      ensures !old(restored) && storage.Some? && walletAdapter != null ==> wallets == reconnected
      ensures !old(restored) && (storage == None || walletAdapter == null) ==> wallets == []
    {
      ghost var begun := BeginRestore(View());
      if restored {
        wallets := if walletAdapter == null then [] else GetConnectedWallets(walletAdapter.connectedWallets);
        return;
      }
      restored := true;
      if storage == None || walletAdapter == null {
        return [];
      }
      pending, reconnected := GetStored(storage), [];
      assert View() == begun && answers[0..] == answers;
      for i := 0 to |answers|
        invariant |pending| == |answers| - i && storage.Some? && restored
        invariant RestoreLoop(View(), answers[i..]) == RestoreLoop(begun, answers)
      {
        assert answers[i..][0] == answers[i] && answers[i..][1..] == answers[i + 1..];
        ReconnectNext(answers[i]);
      }
      wallets := reconnected;
    }

    method RemoveEd25519(address: string)
      modifies this`ed25519Signers
      ensures ed25519Signers == WithoutKey(old(ed25519Signers), address)
    {
      var entries := ed25519Signers;
      var kept: OrderedMap<string, Ed25519Key> := [];
      for i := 0 to |entries|
        invariant kept == WithoutKey(entries[..i], address)
      {
        assert entries[..i + 1] == entries[..i] + [entries[i]];
        WithoutKeyConcat(entries[..i], [entries[i]], address);
        if entries[i].value.address != address {
          kept := kept + [entries[i]];
        }
      }
      assert entries[..|entries|] == entries;
      ed25519Signers := kept;
    }

    method RemoveSigner(address: string)
      modifies this`keypairSigners, this`ed25519Signers, this`storage, walletAdapter
      ensures View() == Step(old(View()), RemoveAddress(address))
    {
      keypairSigners := Delete(keypairSigners, address);
      RemoveEd25519(address);
      if walletAdapter != null {
        walletAdapter.DoDisconnectByAddress(address);
      }
      RemoveWalletFromStorage(address);
    }

    method RemoveAllSigners(succeeds: bool) returns (result: Result<(), AdapterError>)
      modifies this`keypairSigners, this`ed25519Signers, this`storage, walletAdapter
      ensures Outcome(View(), result) == RemoveAll(old(View()), succeeds)
    {
      keypairSigners, ed25519Signers := [], [];
      if walletAdapter != null {
        result := walletAdapter.DoDisconnect(succeeds);
        if result.Err? {
          return;
        }
      }
      if storage.Some? {
        storage := Some(Absent);
      }
      return Result.Ok(());
    }

    method ListKeypairs() returns (signers: seq<ExternalSigner>)
      ensures signers == KeypairSigners(keypairSigners)
    {
      signers := [];
      for i := 0 to |keypairSigners|
        invariant signers + KeypairSigners(keypairSigners[i..]) == KeypairSigners(keypairSigners)
      {
        assert keypairSigners[i..][1..] == keypairSigners[i + 1..];
        signers := signers + [KeypairSigner(keypairSigners[i].key)];
      }
    }

    method ListEd25519() returns (signers: seq<ExternalSigner>)
      ensures signers == Ed25519Signers(ed25519Signers)
    {
      signers := [];
      for i := 0 to |ed25519Signers|
        invariant signers + Ed25519Signers(ed25519Signers[i..]) == Ed25519Signers(ed25519Signers)
      {
        assert ed25519Signers[i..][1..] == ed25519Signers[i + 1..];
        var key := ed25519Signers[i];
        signers := signers + [Ed25519Signer(key.value.address, key.value.verifier, key.key)];
      }
    }

    method ListWallets(wallets: OrderedMap<string, ConnectedWallet>) returns (signers: seq<ExternalSigner>)
      ensures signers == WalletSigners(wallets, keypairSigners)
    {
      signers := [];
      for i := 0 to |wallets|
        invariant signers == WalletSigners(wallets[..i], keypairSigners)
      {
        assert wallets[..i + 1] == wallets[..i] + [wallets[i]];
        WalletSignersConcat(wallets[..i], [wallets[i]], keypairSigners);
        var w := wallets[i].value;
        if !Has(keypairSigners, w.address) {
          signers := signers + [WalletSigner(w.address, w.walletId, w.walletName)];
        }
      }
      assert wallets[..|wallets|] == wallets;
    }

    method GetAllSigners() returns (signers: seq<ExternalSigner>)
      ensures signers == GetAll(View())
    {
      var keypairs := ListKeypairs();
      var keys := ListEd25519();
      var wallets := [];
      if walletAdapter != null {
        wallets := ListWallets(walletAdapter.connectedWallets);
      }
      signers := keypairs + keys + wallets;
    }

    method CanSign(address: string) returns (can: bool)
      ensures can <==> CanSignFor(View(), address)
    {
      can := Has(keypairSigners, address)
             || (walletAdapter != null && Has(walletAdapter.connectedWallets, address));
    }
  }
}
