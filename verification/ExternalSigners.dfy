/**
 * `ExternalSignerManager`: keypairs and Ed25519 signers in memory, wallets in the
 * adapter, and the persisted list of wallets. Operations as functions on its
 * state, and what holds in every run of them.
 */
module ExternalSigners {
  import opened Wrappers
  import opened OrderedMaps
  import opened WalletAdapter

  datatype StoredWallet = StoredWallet(address: string, walletId: string, walletName: string, connectedAt: int)

  /** The item under the storage key; text that does not parse reads as no wallets. */
  datatype Item = Absent | Unreadable | List(wallets: seq<StoredWallet>)

  datatype Ed25519Key = Ed25519Key(address: string, verifier: string)

  /**
   * `ed25519` is keyed by the public key in hex. `pending` is the rest of the
   * snapshot that a running `restoreConnections` iterates, `reconnected` what it
   * has collected.
   */
  datatype Manager = Manager(
    keypairs: OrderedMap<string, string>, ed25519: OrderedMap<string, Ed25519Key>,
    adapter: Option<Adapter>, storage: Option<Item>, restored: bool,
    pending: seq<StoredWallet>, reconnected: seq<ConnectedWallet>)

  datatype ExternalSigner =
    | KeypairSigner(address: string)
    | Ed25519Signer(address: string, verifier: string, publicKey: string)
    | WalletSigner(address: string, walletId: string, walletName: string)

  function NewManager(adapter: Option<Adapter>, storage: Option<Item>): Manager {
    Manager([], [], adapter, storage, false, [], [])
  }

  // ---------------------------------------------------------------- storage

  /** `getStoredWallets`. */
  function GetStored(storage: Option<Item>): seq<StoredWallet> {
    match storage
    case Some(List(wallets)) => wallets
    case _ => []
  }

  /** `stored.filter((w) => w.address !== address)`. */
  function Without(stored: seq<StoredWallet>, address: string): seq<StoredWallet> {
    if stored == [] then []
    else (if stored[0].address != address then [stored[0]] else []) + Without(stored[1..], address)
  }

  /** `saveWalletToStorage`. */
  function Saved(storage: Option<Item>, wallet: ConnectedWallet, now: int): Option<Item> {
    if storage == None then None
    else
      var entry := StoredWallet(wallet.address, wallet.walletId, wallet.walletName, now);
      Some(List(Without(GetStored(storage), wallet.address) + [entry]))
  }

  /** `removeWalletFromStorage`. */
  function Dropped(storage: Option<Item>, address: string): Option<Item> {
    if storage == None then None
    else
      var filtered := Without(GetStored(storage), address);
      Some(if filtered == [] then Absent else List(filtered))
  }

  // ------------------------------------------------------------- operations

  function WithoutKey(m: OrderedMap<string, Ed25519Key>, address: string): OrderedMap<string, Ed25519Key> {
    if m == [] then []
    else (if m[0].value.address != address then [m[0]] else []) + WithoutKey(m[1..], address)
  }

  function AddFromWallet(m: Manager, answer: Answer, now: int): Manager {
    if m.adapter == None then m
    else
      var o := Connect(m.adapter.value, answer);
      var connected := m.(adapter := Some(o.next));
      match o.result
      case Ok(Some(wallet)) => connected.(storage := Saved(m.storage, wallet, now))
      case _ => connected
  }

  /** `restoreConnections` up to its loop; a second call has nothing to iterate. */
  function BeginRestore(m: Manager): Manager {
    if m.restored then m
    else if m.storage == None || m.adapter == None then m.(restored := true)
    else m.(restored := true, pending := GetStored(m.storage), reconnected := [])
  }

  /** One iteration: reconnect the next stored wallet, or drop its entry. */
  function RestoreNext(m: Manager, answer: Answer): Manager {
    if m.pending == [] || m.adapter == None then m
    else
      var saved := m.pending[0];
      var o := Reconnect(m.adapter.value, saved.walletId, answer);
      var next := m.(adapter := Some(o.next), pending := m.pending[1..]);
      match o.result
      case Ok(Some(wallet)) => next.(reconnected := m.reconnected + [wallet])
      case _ => next.(storage := Dropped(m.storage, saved.address))
  }

  function Remove(m: Manager, address: string): Manager {
    m.(
      keypairs := Delete(m.keypairs, address),
      ed25519 := WithoutKey(m.ed25519, address),
      adapter := match m.adapter case None => None case Some(a) => Some(DisconnectByAddress(a, address)),
      storage := Dropped(m.storage, address))
  }

  /** `removeAll` up to its await. */
  function ClearSigners(m: Manager): Manager {
    m.(keypairs := [], ed25519 := [])
  }

  /** The rest of `removeAll`; where the adapter throws, the stored list is not cleared. */
  function DisconnectAll(m: Manager, succeeds: bool): Outcome<Manager, ()> {
    var o := match m.adapter case None => Outcome(NEW_ADAPTER, Ok(())) case Some(a) => Disconnect(a, succeeds);
    var next := m.(adapter := if m.adapter == None then None else Some(o.next));
    if o.result.Err? then Outcome(next, o.result)
    else Outcome(next.(storage := if m.storage == None then None else Some(Absent)), Ok(()))
  }

  function RemoveAll(m: Manager, succeeds: bool): Outcome<Manager, ()> {
    DisconnectAll(ClearSigners(m), succeeds)
  }

  // ---------------------------------------------------------------- queries

  function KeypairSigners(m: OrderedMap<string, string>): seq<ExternalSigner> {
    if m == [] then [] else [KeypairSigner(m[0].key)] + KeypairSigners(m[1..])
  }

  function Ed25519Signers(m: OrderedMap<string, Ed25519Key>): seq<ExternalSigner> {
    if m == [] then []
    else [Ed25519Signer(m[0].value.address, m[0].value.verifier, m[0].key)] + Ed25519Signers(m[1..])
  }

  /** Wallets whose address has no keypair, which takes precedence. */
  function WalletSigners(m: OrderedMap<string, ConnectedWallet>, keypairs: OrderedMap<string, string>)
    : seq<ExternalSigner>
  {
    if m == [] then []
    else
      var w := m[0].value;
      (if Has(keypairs, w.address) then [] else [WalletSigner(w.address, w.walletId, w.walletName)])
      + WalletSigners(m[1..], keypairs)
  }

  function WalletsOf(m: Manager): OrderedMap<string, ConnectedWallet> {
    match m.adapter case None => [] case Some(a) => a.wallets
  }

  function GetAll(m: Manager): seq<ExternalSigner> {
    KeypairSigners(m.keypairs) + Ed25519Signers(m.ed25519) + WalletSigners(WalletsOf(m), m.keypairs)
  }

  predicate CanSignFor(m: Manager, address: string) {
    Has(m.keypairs, address) || Has(WalletsOf(m), address)
  }

  /** Who signs in `signAuthEntry`: a keypair of the manager, or the kit for an address. */
  datatype Signatory = ByKeypair(keypair: string) | ByKit(address: string) | NotFound | Refused(error: AdapterError)

  function SignAuthEntry(m: Manager, address: string): Signatory {
    if Has(m.keypairs, address) then ByKeypair(Get(m.keypairs, address).value)
    else if Has(WalletsOf(m), address) then
      match SigningAddress(m.adapter.value, Some(address))
      case Ok(signer) => ByKit(signer)
      case Err(e) => Refused(e)
    else NotFound
  }

  // ------------------------------------------------------------------- runs

  /**
   * What can happen between two awaits. `keypair` is the address of a secret key
   * and `key` the hex public key and signer of one, if they are valid; `verifier`
   * has been resolved. The application may also use the adapter directly.
   */
  datatype Action =
    | AddFromSecret(keypair: Option<string>)
    | AddEd25519(key: Option<(string, Ed25519Key)>)
    | AddWallet(answer: Answer, now: int)
    | StartRestore
    | ContinueRestore(answer: Answer)
    | RemoveAddress(address: string)
    | StartRemoveAll
    | FinishRemoveAll(succeeds: bool)
    | UseAdapter(it: AdapterAction)

  function Step(m: Manager, a: Action): Manager {
    match a
    case AddFromSecret(None) => m
    case AddFromSecret(Some(address)) => m.(keypairs := Set(m.keypairs, address, address))
    case AddEd25519(None) => m
    case AddEd25519(Some(key)) => m.(ed25519 := Set(m.ed25519, key.0, key.1))
    case AddWallet(answer, now) => AddFromWallet(m, answer, now)
    case StartRestore => BeginRestore(m)
    case ContinueRestore(answer) => RestoreNext(m, answer)
    case RemoveAddress(address) => Remove(m, address)
    case StartRemoveAll => ClearSigners(m)
    case FinishRemoveAll(succeeds) => DisconnectAll(m, succeeds).next
    case UseAdapter(it) =>
      if m.adapter == None then m else m.(adapter := Some(AdapterStep(m.adapter.value, it)))
  }

  function Run(m: Manager, actions: seq<Action>): Manager
    decreases |actions|
  {
    if actions == [] then m else Run(Step(m, actions[0]), actions[1..])
  }

  // -------------------------------------------------------------- invariant

  predicate HasStored(stored: seq<StoredWallet>, address: string) {
    exists i :: 0 <= i < |stored| && stored[i].address == address
  }

  predicate DistinctStored(stored: seq<StoredWallet>) {
    forall i, j :: 0 <= i < j < |stored| ==> stored[i].address != stored[j].address
  }

  /** Absent, or a non-empty list of distinct addresses. */
  predicate StorageOk(storage: Option<Item>) {
    storage.Some? && storage.value != Absent ==>
      storage.value.List? && storage.value.wallets != [] && DistinctStored(storage.value.wallets)
  }

  /** Keypairs are filed under their own address. */
  predicate AreOwn(keypairs: OrderedMap<string, string>) {
    forall i :: 0 <= i < |keypairs| ==> keypairs[i].key == keypairs[i].value
  }

  ghost predicate ManagerOk(m: Manager) {
    && StorageOk(m.storage)
    && Distinct(m.keypairs) && AreOwn(m.keypairs)
    && Distinct(m.ed25519)
    && (m.adapter.Some? ==> AdapterOk(m.adapter.value))
    && (m.pending != [] ==> m.restored && m.adapter.Some?)
  }

  lemma {:induction false} WithoutMeaning(stored: seq<StoredWallet>, address: string)
    ensures forall e :: e in Without(stored, address) <==> e in stored && e.address != address
    ensures DistinctStored(stored) ==> DistinctStored(Without(stored, address))
  {
    if stored != [] {
      var rest := Without(stored[1..], address);
      WithoutMeaning(stored[1..], address);
      assert stored == [stored[0]] + stored[1..];
      if DistinctStored(stored) {
        assert DistinctStored(stored[1..]) by {
          assert forall i :: 0 <= i < |stored[1..]| ==> stored[1..][i] == stored[i + 1];
        }
        assert forall i :: 0 <= i < |rest| ==> rest[i] in rest;
        assert forall i :: 0 <= i < |rest| ==> rest[i].address != stored[0].address by {
          assert forall i :: 0 <= i < |stored[1..]| ==> stored[1..][i] == stored[i + 1];
        }
      }
    }
  }

  lemma DroppedKeepsOk(storage: Option<Item>, address: string)
    requires StorageOk(storage)
    ensures StorageOk(Dropped(storage, address))
  {
    WithoutMeaning(GetStored(storage), address);
  }

  lemma SavedKeepsOk(storage: Option<Item>, wallet: ConnectedWallet, now: int)
    requires StorageOk(storage)
    ensures StorageOk(Saved(storage, wallet, now))
  {
    var kept := Without(GetStored(storage), wallet.address);
    WithoutMeaning(GetStored(storage), wallet.address);
    assert forall i :: 0 <= i < |kept| ==> kept[i] in kept;
  }

  lemma {:induction false} GetWithoutKey(m: OrderedMap<string, Ed25519Key>, address: string, key: string)
    requires Distinct(m)
    ensures Get(WithoutKey(m, address), key)
         == if Has(m, key) && Get(m, key).value.address != address then Get(m, key) else None
  {
    if m != [] {
      GetWithoutKey(m[1..], address, key);
      var rest := WithoutKey(m[1..], address);
      assert ([m[0]] + rest)[1..] == rest;
      assert [] + rest == rest;
    }
  }

  lemma {:induction false} WithoutKeyIsDistinct(m: OrderedMap<string, Ed25519Key>, address: string)
    requires Distinct(m)
    ensures Distinct(WithoutKey(m, address))
  {
    if m != [] {
      WithoutKeyIsDistinct(m[1..], address);
      GetWithoutKey(m[1..], address, m[0].key);
      var rest := WithoutKey(m[1..], address);
      assert ([m[0]] + rest)[1..] == rest;
      assert [] + rest == rest;
    }
  }

  lemma {:induction false} SetIsOwn(keypairs: OrderedMap<string, string>, address: string)
    requires AreOwn(keypairs)
    ensures AreOwn(Set(keypairs, address, address))
  {
    if keypairs != [] && keypairs[0].key != address {
      SetIsOwn(keypairs[1..], address);
    }
  }

  lemma {:induction false} DeleteIsOwn(keypairs: OrderedMap<string, string>, address: string)
    requires AreOwn(keypairs)
    ensures AreOwn(Delete(keypairs, address))
  {
    if keypairs != [] && keypairs[0].key != address {
      DeleteIsOwn(keypairs[1..], address);
    }
  }

  lemma {:induction false} OwnKeypair(keypairs: OrderedMap<string, string>, address: string)
    requires AreOwn(keypairs) && Has(keypairs, address)
    ensures Get(keypairs, address) == Some(address)
  {
    if keypairs[0].key != address {
      OwnKeypair(keypairs[1..], address);
    }
  }

  lemma AddWalletKeepsOk(m: Manager, answer: Answer, now: int)
    requires ManagerOk(m)
    ensures ManagerOk(AddFromWallet(m, answer, now))
  {
    if m.adapter.Some? {
      AdapterStepKeepsOk(m.adapter.value, DoConnect(answer));
      var o := Connect(m.adapter.value, answer);
      if o.result.Ok? && o.result.value.Some? {
        SavedKeepsOk(m.storage, o.result.value.value, now);
      }
    }
  }

  lemma RestoreNextKeepsOk(m: Manager, answer: Answer)
    requires ManagerOk(m)
    ensures ManagerOk(RestoreNext(m, answer))
  {
    if m.adapter.Some? && m.pending != [] {
      AdapterStepKeepsOk(m.adapter.value, DoReconnect(m.pending[0].walletId, answer));
      DroppedKeepsOk(m.storage, m.pending[0].address);
    }
  }

  lemma RemoveKeepsOk(m: Manager, address: string)
    requires ManagerOk(m)
    ensures ManagerOk(Remove(m, address))
  {
    DeleteKeepsDistinct(m.keypairs, address);
    DeleteIsOwn(m.keypairs, address);
    WithoutKeyIsDistinct(m.ed25519, address);
    DroppedKeepsOk(m.storage, address);
    if m.adapter.Some? {
      DisconnectByAddressKeepsOk(m.adapter.value, address);
    }
  }

  lemma DisconnectAllKeepsOk(m: Manager, succeeds: bool)
    requires ManagerOk(m)
    ensures ManagerOk(DisconnectAll(m, succeeds).next)
  {
    if m.adapter.Some? {
      AdapterStepKeepsOk(m.adapter.value, DoDisconnect(succeeds));
    }
  }

  lemma StepKeepsOk(m: Manager, a: Action)
    requires ManagerOk(m)
    ensures ManagerOk(Step(m, a))
  {
    match a
    case AddFromSecret(keypair) =>
      if keypair.Some? {
        SetKeepsDistinct(m.keypairs, keypair.value, keypair.value);
        SetIsOwn(m.keypairs, keypair.value);
      }
    case AddEd25519(key) =>
      if key.Some? {
        SetKeepsDistinct(m.ed25519, key.value.0, key.value.1);
      }
    case AddWallet(answer, now) => AddWalletKeepsOk(m, answer, now);
    case StartRestore =>
    case ContinueRestore(answer) => RestoreNextKeepsOk(m, answer);
    case RemoveAddress(address) => RemoveKeepsOk(m, address);
    case StartRemoveAll =>
    case FinishRemoveAll(succeeds) => DisconnectAllKeepsOk(m, succeeds);
    case UseAdapter(it) =>
      if m.adapter.Some? {
        AdapterStepKeepsOk(m.adapter.value, it);
      }
  }

  lemma {:induction false} RunKeepsOk(m: Manager, actions: seq<Action>)
    requires ManagerOk(m)
    ensures ManagerOk(Run(m, actions))
    decreases |actions|
  {
    if actions != [] {
      StepKeepsOk(m, actions[0]);
      RunKeepsOk(Step(m, actions[0]), actions[1..]);
    }
  }

  /** In every run from empty storage the stored list is absent or non-empty and without repeats. */
  lemma StoredListIsDistinct(adapter: Option<Adapter>, actions: seq<Action>)
    requires adapter.Some? ==> AdapterOk(adapter.value)
    ensures StorageOk(Run(NewManager(adapter, Some(Absent)), actions).storage)
  {
    RunKeepsOk(NewManager(adapter, Some(Absent)), actions);
  }
}
