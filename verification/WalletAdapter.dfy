/** `StellarWalletsKitAdapter`: the map of connected wallets and its notifications. */
module WalletAdapter {
  import opened Wrappers
  import opened OrderedMaps

  datatype ConnectedWallet = ConnectedWallet(address: string, walletId: string, walletName: string)

  /** How `onConnectionChange` ends; it may throw what looks like a cancellation. */
  datatype Callback = Returns | Throws(looksCancelled: bool)

  /** What the wallet kit answers when it is asked for an address, and how the callback then ends. */
  datatype Answer =
    | Chosen(address: string, productId: Option<string>, productName: Option<string>, callback: Callback)
    | NoAddress
    | Cancelled
    | Failed

  datatype AdapterError = NoAdapter | NotInitialized | InitFailed | ConnectionFailed | DisconnectFailed | NotConnected

  /**
   * `told` is history: what `onConnectionChange` was called with, Some for a
   * connected wallet and None for "no longer connected".
   */
  datatype Adapter = Adapter(
    initialized: bool, wallets: OrderedMap<string, ConnectedWallet>, told: seq<Option<ConnectedWallet>>)

  const NEW_ADAPTER := Adapter(false, [], [])

  /** A change of state together with the value returned or the error thrown. */
  datatype Outcome<+S, +T> = Outcome(next: S, result: Result<T, AdapterError>)

  function Or(o: Option<string>, otherwise: string): string {
    match o case Some(s) => s case None => otherwise
  }

  /** An answer with an address, which an empty text is not. */
  predicate HasAddress(answer: Answer) {
    answer.Chosen? && answer.address != ""
  }

  function WalletOf(answer: Answer, walletId: string, walletName: string): ConnectedWallet
    requires HasAddress(answer)
  {
    ConnectedWallet(answer.address, Or(answer.productId, walletId), Or(answer.productName, walletName))
  }

  function Track(s: Adapter, wallet: ConnectedWallet): Adapter {
    s.(wallets := Set(s.wallets, wallet.address, wallet), told := s.told + [Some(wallet)])
  }

  function Init(s: Adapter, imported: bool): Outcome<Adapter, ()> {
    if s.initialized then Outcome(s, Ok(()))
    else if imported then Outcome(s.(initialized := true), Ok(()))
    else Outcome(s, Err(InitFailed))
  }

  function Connect(s: Adapter, answer: Answer): Outcome<Adapter, Option<ConnectedWallet>> {
    if !s.initialized then Outcome(s, Err(NotInitialized))
    else if HasAddress(answer) then
      var wallet := WalletOf(answer, "unknown", "Unknown Wallet");
      Outcome(
        Track(s, wallet),
        match answer.callback
        case Returns => Ok(Some(wallet))
        case Throws(looksCancelled) => if looksCancelled then Ok(None) else Err(ConnectionFailed))
    else if answer == Failed then Outcome(s, Err(ConnectionFailed))
    else Outcome(s, Ok(None))
  }

  function Reconnect(s: Adapter, walletId: string, answer: Answer): Outcome<Adapter, Option<ConnectedWallet>> {
    if !s.initialized then Outcome(s, Err(NotInitialized))
    else if HasAddress(answer) then
      var wallet := WalletOf(answer, walletId, walletId);
      Outcome(Track(s, wallet), Ok(if answer.callback.Returns? then Some(wallet) else None))
    else Outcome(s, Ok(None))
  }

  function Disconnect(s: Adapter, succeeds: bool): Outcome<Adapter, ()> {
    if !s.initialized then Outcome(s, Err(NotInitialized))
    else if !succeeds then Outcome(s, Err(DisconnectFailed))
    else Outcome(s.(wallets := [], told := s.told + [None]), Ok(()))
  }

  function DisconnectByAddress(s: Adapter, address: string): Adapter {
    var left := Delete(s.wallets, address);
    s.(wallets := left, told := if left == [] then s.told + [None] else s.told)
  }

  /** The address the kit is asked to sign with. */
  function SigningAddress(s: Adapter, target: Option<string>): Result<string, AdapterError> {
    if !s.initialized then Err(NotInitialized)
    else if target.Some? && target.value != "" then
      if Has(s.wallets, target.value) then Ok(target.value) else Err(NotConnected)
    else if s.wallets == [] then Err(NotConnected)
    else Ok(s.wallets[0].key)
  }

  function GetConnectedWallets(m: OrderedMap<string, ConnectedWallet>): (r: seq<ConnectedWallet>)
    ensures |r| == |m| && forall i :: 0 <= i < |m| ==> r[i] == m[i].value
  {
    if m == [] then [] else [m[0].value] + GetConnectedWallets(m[1..])
  }

  // -------------------------------------------------------------- invariant

  /** Wallets are filed under their own, non-empty address. */
  predicate AreFiled(m: OrderedMap<string, ConnectedWallet>) {
    forall i :: 0 <= i < |m| ==> m[i].key == m[i].value.address && m[i].key != ""
  }

  /**
   * Distinct addresses, connected wallets only after `init`, and the last
   * notification says whether any wallet is connected.
   */
  ghost predicate AdapterOk(s: Adapter) {
    && Distinct(s.wallets)
    && AreFiled(s.wallets)
    && (s.wallets != [] ==> s.initialized)
    && (s.wallets != [] <==> s.told != [] && s.told[|s.told| - 1].Some?)
  }

  datatype AdapterAction =
    | DoInit(imported: bool)
    | DoConnect(answer: Answer)
    | DoReconnect(walletId: string, answer: Answer)
    | DoDisconnect(succeeds: bool)
    | DoDisconnectByAddress(address: string)

  function AdapterStep(s: Adapter, a: AdapterAction): Adapter {
    match a
    case DoInit(imported) => Init(s, imported).next
    case DoConnect(answer) => Connect(s, answer).next
    case DoReconnect(walletId, answer) => Reconnect(s, walletId, answer).next
    case DoDisconnect(succeeds) => Disconnect(s, succeeds).next
    case DoDisconnectByAddress(address) => DisconnectByAddress(s, address)
  }

  function AdapterRun(s: Adapter, actions: seq<AdapterAction>): Adapter
    decreases |actions|
  {
    if actions == [] then s else AdapterRun(AdapterStep(s, actions[0]), actions[1..])
  }

  lemma {:induction false} SetIsFiled(m: OrderedMap<string, ConnectedWallet>, wallet: ConnectedWallet)
    requires AreFiled(m) && wallet.address != ""
    ensures AreFiled(Set(m, wallet.address, wallet)) && Set(m, wallet.address, wallet) != []
  {
    if m != [] && m[0].key != wallet.address {
      SetIsFiled(m[1..], wallet);
    }
  }

  lemma {:induction false} DeleteIsFiled(m: OrderedMap<string, ConnectedWallet>, address: string)
    requires AreFiled(m)
    ensures AreFiled(Delete(m, address))
    ensures m == [] ==> Delete(m, address) == []
  {
    if m != [] && m[0].key != address {
      DeleteIsFiled(m[1..], address);
    }
  }

  lemma TrackKeepsOk(s: Adapter, wallet: ConnectedWallet)
    requires AdapterOk(s) && s.initialized && wallet.address != ""
    ensures AdapterOk(Track(s, wallet))
  {
    SetKeepsDistinct(s.wallets, wallet.address, wallet);
    SetIsFiled(s.wallets, wallet);
  }

  lemma DisconnectByAddressKeepsOk(s: Adapter, address: string)
    requires AdapterOk(s)
    ensures AdapterOk(DisconnectByAddress(s, address))
  {
    DeleteKeepsDistinct(s.wallets, address);
    DeleteIsFiled(s.wallets, address);
  }

  lemma AdapterStepKeepsOk(s: Adapter, a: AdapterAction)
    requires AdapterOk(s)
    ensures AdapterOk(AdapterStep(s, a))
  {
    match a
    case DoConnect(answer) =>
      if s.initialized && HasAddress(answer) {
        TrackKeepsOk(s, WalletOf(answer, "unknown", "Unknown Wallet"));
      }
    case DoReconnect(walletId, answer) =>
      if s.initialized && HasAddress(answer) {
        TrackKeepsOk(s, WalletOf(answer, walletId, walletId));
      }
    case DoDisconnectByAddress(address) => DisconnectByAddressKeepsOk(s, address);
    case _ =>
  }

  lemma {:induction false} AdapterRunKeepsOk(s: Adapter, actions: seq<AdapterAction>)
    requires AdapterOk(s)
    ensures AdapterOk(AdapterRun(s, actions))
    decreases |actions|
  {
    if actions != [] {
      AdapterStepKeepsOk(s, actions[0]);
      AdapterRunKeepsOk(AdapterStep(s, actions[0]), actions[1..]);
    }
  }

  /** In every run the application has last been told what is the case. */
  lemma NotificationsAreTrue(actions: seq<AdapterAction>)
    ensures
      var s := AdapterRun(NEW_ADAPTER, actions);
      s.wallets != [] <==> s.told != [] && s.told[|s.told| - 1].Some?
  {
    AdapterRunKeepsOk(NEW_ADAPTER, actions);
  }

  /**
   * In every run `canSignFor` accepts an address exactly when asking the adapter
   * to sign with it makes that address sign.
   */
  lemma CanSignIffReachesKit(actions: seq<AdapterAction>, address: string)
    ensures
      var s := AdapterRun(NEW_ADAPTER, actions);
      Has(s.wallets, address) <==> SigningAddress(s, Some(address)) == Ok(address)
  {
    var s := AdapterRun(NEW_ADAPTER, actions);
    AdapterRunKeepsOk(NEW_ADAPTER, actions);
    HasIffEntry(s.wallets, address);
  }

  /**
   * In every run a request to sign reaches the wallet kit exactly when it names a
   * connected address, or names none or the empty text while any wallet is
   * connected. In that case some connected wallet signs, the one connected first.
   */
  lemma ReachesKitIff(actions: seq<AdapterAction>, target: Option<string>)
    ensures
      var s := AdapterRun(NEW_ADAPTER, actions);
      && (SigningAddress(s, target).Ok? <==>
            (if target == None || target == Some("") then s.wallets != [] else Has(s.wallets, target.value)))
      && (SigningAddress(s, target).Ok? ==> Has(s.wallets, SigningAddress(s, target).value))
      && (s.wallets != [] && (target == None || target == Some("")) ==>
            SigningAddress(s, target) == Ok(s.wallets[0].key))
  {
    AdapterRunKeepsOk(NEW_ADAPTER, actions);
  }

  /**
   * `init` and `disconnect` return exactly if they have done what they are for, and
   * change nothing if they throw.
   */
  lemma ReturnsIfDone(s: Adapter, works: bool)
    ensures Init(s, works).result.Ok? <==> s.initialized || works
    ensures Init(s, works).next == s.(initialized := Init(s, works).result.Ok?)
    ensures Disconnect(s, works).result.Ok? <==> s.initialized && works
    ensures Disconnect(s, works).next
         == if Disconnect(s, works).result.Ok? then s.(wallets := [], told := s.told + [None]) else s
  {
  }

  /**
   * What `connect` returns. Once initialized it throws exactly where the kit fails
   * or the callback throws what does not look like a cancellation. A wallet is
   * returned exactly for an address and a callback that returns, and it is then
   * connected with the product's id and name.
   */
  lemma ConnectOutcomes(s: Adapter, answer: Answer)
    requires s.initialized
    ensures
      var o := Connect(s, answer);
      && (o.result.Err? <==>
            answer.Failed? || (HasAddress(answer) && answer.callback.Throws? && !answer.callback.looksCancelled))
      && (o.result.Ok? && o.result.value.Some? <==> HasAddress(answer) && answer.callback.Returns?)
      && (o.result.Ok? && o.result.value.Some? ==> Get(o.next.wallets, answer.address) == o.result.value)
    ensures forall address ::
              Get(Connect(s, answer).next.wallets, address)
              == if !HasAddress(answer) || address != answer.address then Get(s.wallets, address)
                 else
                   Some(ConnectedWallet(
                          answer.address,
                          match answer.productId case Some(id) => id case None => "unknown",
                          match answer.productName case Some(name) => name case None => "Unknown Wallet"))
  {
    if HasAddress(answer) {
      var wallet := WalletOf(answer, "unknown", "Unknown Wallet");
      forall address
        ensures Get(Track(s, wallet).wallets, address)
             == if address == wallet.address then Some(wallet) else Get(s.wallets, address)
      {
        GetAfterSet(s.wallets, wallet.address, wallet, address);
      }
    }
  }

  /**
   * So for the empty text the two methods disagree: after one wallet connects,
   * `canSignFor` refuses it and `signAuthEntry` signs with that wallet.
   */
  lemma EmptyAddressSigns(address: string)
    requires address != ""
    ensures
      var s := AdapterRun(NEW_ADAPTER, [DoInit(true), DoConnect(Chosen(address, None, None, Returns))]);
      !Has(s.wallets, "") && SigningAddress(s, Some("")) == Ok(address)
  {
    var connect := DoConnect(Chosen(address, None, None, Returns));
    var started := AdapterStep(NEW_ADAPTER, DoInit(true));
    assert [DoInit(true), connect][1..] == [connect] && [connect][1..] == [];
    var s := AdapterStep(started, connect);
    assert AdapterRun(started, [connect]) == s;
    assert s.wallets == [Entry(address, ConnectedWallet(address, "unknown", "Unknown Wallet"))];
    HasIffEntry(s.wallets, "");
  }

  class StellarWalletsKitAdapter {
    var initialized: bool
    var connectedWallets: OrderedMap<string, ConnectedWallet>
    ghost var told: seq<Option<ConnectedWallet>>

    ghost function View(): Adapter
      reads this
    {
      Adapter(initialized, connectedWallets, told)
    }

    constructor ()
      ensures View() == NEW_ADAPTER
    {
      initialized, connectedWallets, told := false, [], [];
    }

    /** `imported`: whether the wallet kit could be imported and started. */
    method DoInit(imported: bool) returns (result: Result<(), AdapterError>)
      modifies this`initialized
      ensures Outcome(View(), result) == Init(old(View()), imported)
    {
      if initialized {
        return Ok(());
      }
      if !imported {
        return Err(InitFailed);
      }
      initialized := true;
      return Ok(());
    }

    method TrackWallet(wallet: ConnectedWallet)
      modifies this`connectedWallets, this`told
      ensures View() == Track(old(View()), wallet)
    {
      connectedWallets := Set(connectedWallets, wallet.address, wallet);
      told := told + [Some(wallet)];
    }

    method DoConnect(answer: Answer) returns (result: Result<Option<ConnectedWallet>, AdapterError>)
      modifies this`connectedWallets, this`told
      ensures Outcome(View(), result) == Connect(old(View()), answer)
    {
      if !initialized {
        return Err(NotInitialized);
      }
      match answer
      case Chosen(address, productId, productName, callback) =>
        if address == "" {
          return Ok(None);
        }
        var wallet := ConnectedWallet(address, Or(productId, "unknown"), Or(productName, "Unknown Wallet"));
        TrackWallet(wallet);
        match callback {
          case Returns => return Ok(Some(wallet));
          case Throws(looksCancelled) => return if looksCancelled then Ok(None) else Err(ConnectionFailed);
        }
      case NoAddress => return Ok(None);
      case Cancelled => return Ok(None);
      case Failed => return Err(ConnectionFailed);
    }

    method DoReconnect(walletId: string, answer: Answer)
      returns (result: Result<Option<ConnectedWallet>, AdapterError>)
      modifies this`connectedWallets, this`told
      ensures Outcome(View(), result) == Reconnect(old(View()), walletId, answer)
    {
      if !initialized {
        return Err(NotInitialized);
      }
      if !HasAddress(answer) {
        return Ok(None);
      }
      var wallet := ConnectedWallet(answer.address, Or(answer.productId, walletId), Or(answer.productName, walletId));
      TrackWallet(wallet);
      return Ok(if answer.callback.Returns? then Some(wallet) else None);
    }

    method DoDisconnect(succeeds: bool) returns (result: Result<(), AdapterError>)
      modifies this`connectedWallets, this`told
      ensures Outcome(View(), result) == Disconnect(old(View()), succeeds)
    {
      if !initialized {
        return Err(NotInitialized);
      }
      if !succeeds {
        return Err(DisconnectFailed);
      }
      connectedWallets := [];
      told := told + [None];
      return Ok(());
    }

    method DoDisconnectByAddress(address: string)
      modifies this`connectedWallets, this`told
      ensures View() == DisconnectByAddress(old(View()), address)
    {
      connectedWallets := Delete(connectedWallets, address);
      if connectedWallets == [] {
        told := told + [None];
      }
    }
  }
}
