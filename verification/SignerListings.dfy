/** What `getAll` lists, signer by signer, and what adding one changes. */
module SignerListings {
  import opened Wrappers
  import opened OrderedMaps
  import opened WalletAdapter
  import opened ExternalSigners
  import opened ExternalSignerProperties

  /** A keypair, an Ed25519 key, or a wallet whose address has no keypair, under its own data. */
  predicate IsListed(m: Manager, signer: ExternalSigner) {
    match signer
    case KeypairSigner(address) => Has(m.keypairs, address)
    case Ed25519Signer(address, verifier, publicKey) =>
      Get(m.ed25519, publicKey) == Some(Ed25519Key(address, verifier))
    case WalletSigner(address, walletId, walletName) =>
      && Get(WalletsOf(m), address) == Some(ConnectedWallet(address, walletId, walletName))
      && !Has(m.keypairs, address)
  }

  lemma {:induction false} KeypairListed(m: OrderedMap<string, string>, signer: ExternalSigner)
    ensures signer in KeypairSigners(m) <==> signer.KeypairSigner? && Has(m, signer.address)
  {
    if m != [] {
      KeypairListed(m[1..], signer);
    }
  }

  lemma {:induction false} Ed25519Listed(m: OrderedMap<string, Ed25519Key>, signer: ExternalSigner)
    requires Distinct(m)
    ensures signer in Ed25519Signers(m) <==>
              && signer.Ed25519Signer?
              && Get(m, signer.publicKey) == Some(Ed25519Key(signer.address, signer.verifier))
  {
    if m != [] {
      Ed25519Listed(m[1..], signer);
    }
  }

  lemma {:induction false} WalletListed(
    m: OrderedMap<string, ConnectedWallet>, keypairs: OrderedMap<string, string>, signer: ExternalSigner)
    requires Distinct(m) && AreFiled(m)
    ensures signer in WalletSigners(m, keypairs) <==>
              && signer.WalletSigner?
              && Get(m, signer.address) == Some(ConnectedWallet(signer.address, signer.walletId, signer.walletName))
              && !Has(keypairs, signer.address)
  {
    if m != [] {
      WalletListed(m[1..], keypairs, signer);
      assert m[0].key == m[0].value.address;
    }
  }

  /** `getAll` lists exactly these. */
  lemma ListedIff(m: Manager, signer: ExternalSigner)
    requires ManagerOk(m)
    ensures signer in GetAll(m) <==> IsListed(m, signer)
  {
    KeypairListed(m.keypairs, signer);
    Ed25519Listed(m.ed25519, signer);
    WalletListed(WalletsOf(m), m.keypairs, signer);
  }

  /** Adding a keypair lists it, and no longer the wallet of its address. */
  lemma AddedKeypairIsListed(m: Manager, address: string, signer: ExternalSigner)
    requires ManagerOk(m)
    ensures signer in GetAll(Step(m, AddFromSecret(Some(address)))) <==>
              || signer == KeypairSigner(address)
              || (signer in GetAll(m) && !(signer.WalletSigner? && signer.address == address))
  {
    StepKeepsOk(m, AddFromSecret(Some(address)));
    ListedIff(m, signer);
    ListedIff(Step(m, AddFromSecret(Some(address))), signer);
    if !signer.Ed25519Signer? {
      GetAfterSet(m.keypairs, address, address, signer.address);
    }
  }

  /** Adding an Ed25519 key lists it in the place of one with the same public key. */
  lemma AddedEd25519IsListed(m: Manager, publicKey: string, key: Ed25519Key, signer: ExternalSigner)
    requires ManagerOk(m)
    ensures signer in GetAll(Step(m, AddEd25519(Some((publicKey, key))))) <==>
              || signer == Ed25519Signer(key.address, key.verifier, publicKey)
              || (signer in GetAll(m) && !(signer.Ed25519Signer? && signer.publicKey == publicKey))
  {
    var t := Step(m, AddEd25519(Some((publicKey, key))));
    StepKeepsOk(m, AddEd25519(Some((publicKey, key))));
    ListedIff(m, signer);
    ListedIff(t, signer);
    if signer.Ed25519Signer? {
      GetAfterSet(m.ed25519, publicKey, key, signer.publicKey);
    }
  }

  /** The wallet and no other of its address, if it has no keypair, and the rest as before. */
  predicate IsListedWith(m: Manager, wallet: ConnectedWallet, signer: ExternalSigner) {
    || (signer == WalletSigner(wallet.address, wallet.walletId, wallet.walletName) && !Has(m.keypairs, wallet.address))
    || (signer in GetAll(m) && !(signer.WalletSigner? && signer.address == wallet.address))
  }

  lemma TrackedIsListed(m: Manager, t: Manager, wallet: ConnectedWallet, signer: ExternalSigner)
    requires ManagerOk(m) && ManagerOk(t)
    requires t.keypairs == m.keypairs && t.ed25519 == m.ed25519
    requires WalletsOf(t) == Set(WalletsOf(m), wallet.address, wallet)
    ensures signer in GetAll(t) <==> IsListedWith(m, wallet, signer)
  {
    ListedIff(m, signer);
    ListedIff(t, signer);
    if signer.WalletSigner? {
      GetAfterSet(WalletsOf(m), wallet.address, wallet, signer.address);
    }
  }

  lemma ConnectedState(m: Manager, answer: Answer, now: int)
    requires Succeeds(m, answer)
    ensures
      var wallet := WalletOf(answer, "unknown", "Unknown Wallet");
      Step(m, AddWallet(answer, now))
      == m.(adapter := Some(Track(m.adapter.value, wallet)), storage := Saved(m.storage, wallet, now))
  {
  }

  /**
   * Connecting a wallet lists it with the product's id and name, if it has any, in
   * the place of one with its address, and stores it as the last entry.
   */
  lemma AddedWalletIsListed(m: Manager, answer: Answer, now: int, signer: ExternalSigner)
    requires ManagerOk(m) && Succeeds(m, answer)
    ensures
      var t := Step(m, AddWallet(answer, now));
      var id := match answer.productId case Some(id) => id case None => "unknown";
      var name := match answer.productName case Some(name) => name case None => "Unknown Wallet";
      && (signer in GetAll(t) <==> IsListedWith(m, ConnectedWallet(answer.address, id, name), signer))
      && (m.storage.Some? ==>
            GetStored(t.storage)
            == Without(GetStored(m.storage), answer.address) + [StoredWallet(answer.address, id, name, now)])
  {
    var t := Step(m, AddWallet(answer, now));
    StepKeepsOk(m, AddWallet(answer, now));
    ConnectedState(m, answer, now);
    TrackedIsListed(m, t, WalletOf(answer, "unknown", "Unknown Wallet"), signer);
  }

  /**
   * Reconnecting a stored wallet lists it as well. Where the product has no name,
   * its stored id takes the place of the name; the stored name is not used.
   */
  lemma ReconnectedWalletIsListed(m: Manager, answer: Answer, signer: ExternalSigner)
    requires ManagerOk(m) && m.pending != [] && Succeeds(m, answer)
    ensures
      var t := Step(m, ContinueRestore(answer));
      var id := match answer.productId case Some(id) => id case None => m.pending[0].walletId;
      var name := match answer.productName case Some(name) => name case None => m.pending[0].walletId;
      && (signer in GetAll(t) <==> IsListedWith(m, ConnectedWallet(answer.address, id, name), signer))
      && t.reconnected == m.reconnected + [ConnectedWallet(answer.address, id, name)]
      && t.storage == m.storage
  {
    var t := Step(m, ContinueRestore(answer));
    StepKeepsOk(m, ContinueRestore(answer));
    TrackedIsListed(m, t, WalletFor(m.pending[0], answer), signer);
  }
}
