/**
 * `restoreConnections` awaits every reconnection and `removeAll` the disconnection,
 * and other calls can come in between. What is stored, and what can be signed for,
 * is then decided step by step.
 */
module InterleavedCalls {
  import opened Wrappers
  import opened OrderedMaps
  import opened WalletAdapter
  import opened ExternalSigners
  import opened ExternalSignerProperties

  /** What can be true of an address: it is stored, its wallet is connected, it has a keypair. */
  datatype Aspect = IsStored | IsConnected | HasKeypair

  predicate Holds(aspect: Aspect, m: Manager, address: string) {
    match aspect
    case IsStored => HasStored(GetStored(m.storage), address)
    case IsConnected => Has(WalletsOf(m), address)
    case HasKeypair => Has(m.keypairs, address)
  }

  /** What a step decides about an aspect of an address; None if it leaves that as it is. */
  function Decision(aspect: Aspect, m: Manager, a: Action, address: string): Option<bool> {
    match aspect
    case IsStored => StoredDecision(m, a, address)
    case IsConnected => ConnectedDecision(m, a, address)
    case HasKeypair => KeypairDecision(a, address)
  }

  function StoredDecision(m: Manager, a: Action, address: string): Option<bool> {
    match a
    case AddWallet(answer, _) =>
      if m.storage.Some? && Succeeds(m, answer) && answer.address == address then Some(true) else None
    case ContinueRestore(answer) =>
      if m.adapter.Some? && m.pending != [] && !Succeeds(m, answer) && m.pending[0].address == address
      then Some(false) else None
    case RemoveAddress(removed) => if removed == address then Some(false) else None
    case FinishRemoveAll(succeeds) => if CanDisconnect(m, succeeds) then Some(false) else None
    case _ => None
  }

  predicate IsStarted(m: Manager) {
    m.adapter.Some? && m.adapter.value.initialized
  }

  /** There is no adapter, or it can disconnect. */
  predicate CanDisconnect(m: Manager, succeeds: bool) {
    m.adapter.None? || (m.adapter.value.initialized && succeeds)
  }

  /** The kit answered with the address. */
  predicate Answers(answer: Answer, address: string) {
    HasAddress(answer) && answer.address == address
  }

  function ConnectedDecision(m: Manager, a: Action, address: string): Option<bool> {
    match a
    case AddWallet(answer, _) => if IsStarted(m) && Answers(answer, address) then Some(true) else None
    case ContinueRestore(answer) =>
      if IsStarted(m) && m.pending != [] && Answers(answer, address) then Some(true) else None
    case RemoveAddress(removed) => if removed == address then Some(false) else None
    case FinishRemoveAll(succeeds) => if IsStarted(m) && succeeds then Some(false) else None
    case UseAdapter(DoConnect(answer)) => if IsStarted(m) && Answers(answer, address) then Some(true) else None
    case UseAdapter(DoReconnect(_, answer)) =>
      if IsStarted(m) && Answers(answer, address) then Some(true) else None
    case UseAdapter(DoDisconnect(succeeds)) => if IsStarted(m) && succeeds then Some(false) else None
    case UseAdapter(DoDisconnectByAddress(removed)) => if removed == address then Some(false) else None
    case _ => None
  }

  function KeypairDecision(a: Action, address: string): Option<bool> {
    match a
    case AddFromSecret(keypair) => if keypair == Some(address) then Some(true) else None
    case RemoveAddress(removed) => if removed == address then Some(false) else None
    case StartRemoveAll => Some(false)
    case _ => None
  }

  /** Whether an aspect holds, by the last step of a run that decides about it. */
  function LastDecision(aspect: Aspect, m: Manager, actions: seq<Action>, address: string): bool
    decreases |actions|
  {
    if actions == [] then Holds(aspect, m, address)
    else
      var n := |actions| - 1;
      match Decision(aspect, Run(m, actions[..n]), actions[n], address)
      case Some(holds) => holds
      case None => LastDecision(aspect, m, actions[..n], address)
  }

  lemma HasStoredCons(head: StoredWallet, tail: seq<StoredWallet>, address: string)
    ensures HasStored([head] + tail, address) <==> head.address == address || HasStored(tail, address)
  {
    var all := [head] + tail;
    assert all[0] == head && forall i :: 0 <= i < |tail| ==> all[i + 1] == tail[i];
    assert forall i :: 1 <= i < |all| ==> all[i] == tail[i - 1];
  }

  lemma {:induction false} HasStoredWithout(stored: seq<StoredWallet>, removed: string, address: string)
    ensures HasStored(Without(stored, removed), address) <==> address != removed && HasStored(stored, address)
  {
    if stored != [] {
      HasStoredWithout(stored[1..], removed, address);
      HasStoredCons(stored[0], stored[1..], address);
      HasStoredCons(stored[0], Without(stored[1..], removed), address);
      assert stored == [stored[0]] + stored[1..];
      assert [] + Without(stored[1..], removed) == Without(stored[1..], removed);
    }
  }

  lemma HasStoredDropped(storage: Option<Item>, removed: string, address: string)
    ensures HasStored(GetStored(Dropped(storage, removed)), address)
       <==> address != removed && HasStored(GetStored(storage), address)
  {
    HasStoredWithout(GetStored(storage), removed, address);
  }

  lemma HasStoredSaved(storage: Option<Item>, wallet: ConnectedWallet, now: int, address: string)
    requires storage.Some?
    ensures HasStored(GetStored(Saved(storage, wallet, now)), address)
       <==> address == wallet.address || HasStored(GetStored(storage), address)
  {
    HasStoredWithout(GetStored(storage), wallet.address, address);
    var kept := Without(GetStored(storage), wallet.address);
    var saved := GetStored(Saved(storage, wallet, now));
    assert saved[|kept|].address == wallet.address;
    assert forall i :: 0 <= i < |kept| ==> saved[i] == kept[i];
  }

  lemma StoredStep(m: Manager, a: Action, address: string)
    ensures m.storage.Some? <==> Step(m, a).storage.Some?
    ensures HasStored(GetStored(Step(m, a).storage), address)
       <==> (match StoredDecision(m, a, address)
             case Some(stored) => stored
             case None => HasStored(GetStored(m.storage), address))
  {
    match a
    case AddWallet(answer, now) =>
      if m.storage.Some? && Succeeds(m, answer) {
        HasStoredSaved(m.storage, WalletOf(answer, "unknown", "Unknown Wallet"), now, address);
      }
    case ContinueRestore(answer) =>
      if m.adapter.Some? && m.pending != [] && !Succeeds(m, answer) {
        HasStoredDropped(m.storage, m.pending[0].address, address);
      }
    case RemoveAddress(removed) => HasStoredDropped(m.storage, removed, address);
    case _ =>
  }

  /** The state after an answer: the wallet is tracked if the adapter runs and there is one. */
  lemma TrackedStep(m: Manager, answer: Answer, walletId: string, walletName: string, address: string)
    requires IsStarted(m)
    ensures
      var wallets := if HasAddress(answer)
                     then Set(WalletsOf(m), answer.address, WalletOf(answer, walletId, walletName))
                     else WalletsOf(m);
      Has(wallets, address) <==> Answers(answer, address) || Has(WalletsOf(m), address)
  {
    if HasAddress(answer) {
      GetAfterSet(WalletsOf(m), answer.address, WalletOf(answer, walletId, walletName), address);
    }
  }

  lemma AddWalletConnects(m: Manager, answer: Answer, now: int, address: string)
    ensures Has(WalletsOf(AddFromWallet(m, answer, now)), address)
       <==> (IsStarted(m) && Answers(answer, address)) || Has(WalletsOf(m), address)
  {
    if IsStarted(m) {
      TrackedStep(m, answer, "unknown", "Unknown Wallet", address);
    }
  }

  lemma RestoreNextConnects(m: Manager, answer: Answer, address: string)
    ensures Has(WalletsOf(RestoreNext(m, answer)), address)
       <==> (IsStarted(m) && m.pending != [] && Answers(answer, address)) || Has(WalletsOf(m), address)
  {
    if IsStarted(m) && m.pending != [] {
      TrackedStep(m, answer, m.pending[0].walletId, m.pending[0].walletId, address);
    }
  }

  lemma AdapterConnects(m: Manager, it: AdapterAction, address: string)
    requires ManagerOk(m)
    ensures Has(WalletsOf(Step(m, UseAdapter(it))), address)
       <==> (match ConnectedDecision(m, UseAdapter(it), address)
             case Some(connected) => connected
             case None => Has(WalletsOf(m), address))
  {
    match it
    case DoConnect(answer) =>
      if IsStarted(m) {
        TrackedStep(m, answer, "unknown", "Unknown Wallet", address);
      }
    case DoReconnect(walletId, answer) =>
      if IsStarted(m) {
        TrackedStep(m, answer, walletId, walletId, address);
      }
    case DoDisconnectByAddress(removed) => GetAfterDelete(WalletsOf(m), removed, address);
    case _ =>
  }

  lemma ConnectedStep(m: Manager, a: Action, address: string)
    requires ManagerOk(m)
    ensures Has(WalletsOf(Step(m, a)), address)
       <==> (match ConnectedDecision(m, a, address)
             case Some(connected) => connected
             case None => Has(WalletsOf(m), address))
  {
    match a
    case AddWallet(answer, now) => AddWalletConnects(m, answer, now, address);
    case ContinueRestore(answer) => RestoreNextConnects(m, answer, address);
    case RemoveAddress(removed) => GetAfterDelete(WalletsOf(m), removed, address);
    case UseAdapter(it) => AdapterConnects(m, it, address);
    case _ =>
  }

  lemma KeypairStep(m: Manager, a: Action, address: string)
    requires ManagerOk(m)
    ensures Has(Step(m, a).keypairs, address)
       <==> (match KeypairDecision(a, address) case Some(has) => has case None => Has(m.keypairs, address))
  {
    match a
    case AddFromSecret(keypair) =>
      if keypair.Some? {
        GetAfterSet(m.keypairs, keypair.value, keypair.value, address);
      }
    case RemoveAddress(removed) => GetAfterDelete(m.keypairs, removed, address);
    case _ =>
  }

  /** Every step decides about every address as `Decision` says, and about nothing else. */
  lemma StepDecides(aspect: Aspect, m: Manager, a: Action, address: string)
    requires aspect != IsStored ==> ManagerOk(m)
    ensures m.storage.Some? <==> Step(m, a).storage.Some?
    ensures Holds(aspect, Step(m, a), address)
       <==> (match Decision(aspect, m, a, address)
             case Some(holds) => holds
             case None => Holds(aspect, m, address))
  {
    StoredStep(m, a, address);
    match aspect
    case IsStored =>
    case IsConnected => ConnectedStep(m, a, address);
    case HasKeypair => KeypairStep(m, a, address);
  }

  lemma {:induction false} RunConcat(m: Manager, a: seq<Action>, b: seq<Action>)
    ensures Run(m, a + b) == Run(Run(m, a), b)
    decreases |a|
  {
    if a == [] {
      assert a + b == b;
    } else {
      assert (a + b)[1..] == a[1..] + b;
      RunConcat(Step(m, a[0]), a[1..], b);
    }
  }

  lemma {:induction false} HoldsAsLastDecided(aspect: Aspect, m: Manager, actions: seq<Action>, address: string)
    requires aspect != IsStored ==> ManagerOk(m)
    ensures m.storage.Some? <==> Run(m, actions).storage.Some?
    ensures Holds(aspect, Run(m, actions), address) <==> LastDecision(aspect, m, actions, address)
    decreases |actions|
  {
    if actions != [] {
      var n := |actions| - 1;
      var front, last := actions[..n], actions[n];
      HoldsAsLastDecided(aspect, m, front, address);
      assert actions == front + [last];
      RunConcat(m, front, [last]);
      assert Run(Run(m, front), [last]) == Step(Run(m, front), last);
      if aspect != IsStored {
        RunKeepsOk(m, front);
      }
      StepDecides(aspect, Run(m, front), last, address);
    }
  }

  /**
   * In every run, in particular with anything between the awaits of a restore, an
   * address is stored at the end exactly as the last step that concerns it left
   * it: saved by a connection, dropped by a failed reconnection or a removal.
   */
  lemma StoredAsLastDecided(m: Manager, actions: seq<Action>, address: string)
    ensures m.storage.Some? <==> Run(m, actions).storage.Some?
    ensures HasStored(GetStored(Run(m, actions).storage), address) <==> LastDecision(IsStored, m, actions, address)
  {
    HoldsAsLastDecided(IsStored, m, actions, address);
  }

  /**
   * In every run the manager can sign for an address at the end exactly if the
   * last step that concerns its wallet connected it, or the last one that concerns
   * its keypair added it.
   */
  lemma CanSignAsLastDecided(m: Manager, actions: seq<Action>, address: string)
    requires ManagerOk(m)
    ensures CanSignFor(Run(m, actions), address)
       <==> LastDecision(IsConnected, m, actions, address) || LastDecision(HasKeypair, m, actions, address)
  {
    HoldsAsLastDecided(IsConnected, m, actions, address);
    HoldsAsLastDecided(HasKeypair, m, actions, address);
  }

  // ------------------------------------------------- removals that stay in force

  /** The call adds a keypair for the address, or the kit answers it with the address. */
  predicate Names(a: Action, address: string) {
    match a
    case AddFromSecret(keypair) => keypair == Some(address)
    case AddWallet(answer, _) => Answers(answer, address)
    case ContinueRestore(answer) => Answers(answer, address)
    case UseAdapter(DoConnect(answer)) => Answers(answer, address)
    case UseAdapter(DoReconnect(_, answer)) => Answers(answer, address)
    case _ => false
  }

  /** While nothing names an address that cannot be signed for, it cannot be signed for. */
  lemma {:induction false} UnnamedStaysOut(m: Manager, actions: seq<Action>, address: string)
    requires ManagerOk(m) && !CanSignFor(m, address)
    requires forall k :: 0 <= k < |actions| ==> !Names(actions[k], address)
    ensures !CanSignFor(Run(m, actions), address)
    decreases |actions|
  {
    if actions != [] {
      StepKeepsOk(m, actions[0]);
      StepDecides(IsConnected, m, actions[0], address);
      StepDecides(HasKeypair, m, actions[0], address);
      UnnamedStaysOut(Step(m, actions[0]), actions[1..], address);
    }
  }

  /**
   * `remove(a)` stays in force, whatever else happens and even in the middle of a
   * restore, as long as no later answer of the kit and no new keypair is `a`.
   */
  lemma RemoveStays(m: Manager, address: string, actions: seq<Action>)
    requires ManagerOk(m)
    requires forall k :: 0 <= k < |actions| ==> !Names(actions[k], address)
    ensures !CanSignFor(Run(m, [RemoveAddress(address)] + actions), address)
  {
    var removed := Step(m, RemoveAddress(address));
    StepKeepsOk(m, RemoveAddress(address));
    RemoveStopsOnly(m, address, address);
    UnnamedStaysOut(removed, actions, address);
    assert ([RemoveAddress(address)] + actions)[1..] == actions;
  }

  /** In general it stays in force exactly if no deciding step after it says otherwise. */
  lemma RemoveStaysIff(m: Manager, address: string, actions: seq<Action>)
    requires ManagerOk(m)
    ensures
      var removed := Remove(m, address);
      !CanSignFor(Run(m, [RemoveAddress(address)] + actions), address) <==>
        && !LastDecision(IsConnected, removed, actions, address)
        && !LastDecision(HasKeypair, removed, actions, address)
  {
    StepKeepsOk(m, RemoveAddress(address));
    CanSignAsLastDecided(Remove(m, address), actions, address);
    assert ([RemoveAddress(address)] + actions)[1..] == actions;
  }

  /** Likewise `removeAll`, once it has disconnected and unless something came in between. */
  lemma RemoveAllStays(m: Manager, succeeds: bool, address: string, actions: seq<Action>)
    requires ManagerOk(m) && RemoveAll(m, succeeds).result.Ok?
    requires forall k :: 0 <= k < |actions| ==> !Names(actions[k], address)
    ensures !CanSignFor(Run(m, [StartRemoveAll, FinishRemoveAll(succeeds)] + actions), address)
  {
    RunRemoveAll(m, succeeds, actions);
    StepKeepsOk(m, StartRemoveAll);
    StepKeepsOk(ClearSigners(m), FinishRemoveAll(succeeds));
    UnnamedStaysOut(RemoveAll(m, succeeds).next, actions, address);
  }

  lemma RunRemoveAll(m: Manager, succeeds: bool, rest: seq<Action>)
    ensures Run(m, [StartRemoveAll, FinishRemoveAll(succeeds)] + rest) == Run(RemoveAll(m, succeeds).next, rest)
  {
    RunTwo(m, StartRemoveAll, FinishRemoveAll(succeeds));
    RunConcat(m, [StartRemoveAll, FinishRemoveAll(succeeds)], rest);
  }

  // ------------------------------------------------------------ what goes wrong

  lemma RunTwo(m: Manager, a: Action, b: Action)
    ensures Run(m, [a, b]) == Step(Step(m, a), b)
  {
    assert [a, b][1..] == [b] && [b][1..] == [];
    assert Run(Step(m, a), [b]) == Step(Step(m, a), b);
  }

  lemma TrackedCanSign(m: Manager, wallet: ConnectedWallet)
    requires m.adapter.Some?
    ensures CanSignFor(m.(adapter := Some(Track(m.adapter.value, wallet))), wallet.address)
  {
    GetAfterSet(m.adapter.value.wallets, wallet.address, wallet, wallet.address);
  }

  /**
   * A wallet that is connected while a restore awaits the reconnection of its
   * address loses its stored entry when that fails, and stays connected.
   */
  lemma FailedReconnectDropsSaved(m: Manager, connected: Answer, now: int, failed: Answer)
    requires m.storage.Some? && m.pending != []
    requires Succeeds(m, connected) && connected.address == m.pending[0].address
    requires !HasAddress(failed)
    ensures
      var saved := Step(m, AddWallet(connected, now));
      var t := Run(m, [AddWallet(connected, now), ContinueRestore(failed)]);
      && HasStored(GetStored(saved.storage), connected.address)
      && !HasStored(GetStored(t.storage), connected.address)
      && CanSignFor(t, connected.address)
  {
    var saved := Step(m, AddWallet(connected, now));
    RunTwo(m, AddWallet(connected, now), ContinueRestore(failed));
    StepDecides(IsStored, m, AddWallet(connected, now), connected.address);
    StepDecides(IsStored, saved, ContinueRestore(failed), connected.address);
    TrackedCanSign(m, WalletOf(connected, "unknown", "Unknown Wallet"));
  }

  /**
   * `remove(a)` while a restore awaits is undone by a later reconnection to `a`:
   * the manager can sign for it again, and no entry says so.
   */
  lemma RemoveIsUndone(m: Manager, answer: Answer)
    requires m.storage.Some? && m.pending != [] && Succeeds(m, answer)
    ensures
      var removed := Step(m, RemoveAddress(answer.address));
      var t := Run(m, [RemoveAddress(answer.address), ContinueRestore(answer)]);
      && CanSignFor(t, answer.address)
      && !HasStored(GetStored(removed.storage), answer.address)
      && !HasStored(GetStored(t.storage), answer.address)
  {
    var removed := Step(m, RemoveAddress(answer.address));
    RunTwo(m, RemoveAddress(answer.address), ContinueRestore(answer));
    StepDecides(IsStored, m, RemoveAddress(answer.address), answer.address);
    StepDecides(IsStored, removed, ContinueRestore(answer), answer.address);
    TrackedCanSign(removed, WalletFor(m.pending[0], answer));
  }

  /**
   * A reconnection whose callback throws counts as failed: the entry is dropped
   * and the wallet not returned, although it is connected and can sign.
   */
  lemma ThrowingCallbackDropsEntry(m: Manager, answer: Answer)
    requires m.storage.Some? && m.pending != [] && m.adapter.Some? && m.adapter.value.initialized
    requires HasAddress(answer) && answer.callback.Throws?
    ensures
      var next := RestoreNext(m, answer);
      && CanSignFor(next, answer.address)
      && next.reconnected == m.reconnected
      && !HasStored(GetStored(next.storage), m.pending[0].address)
  {
    StepDecides(IsStored, m, ContinueRestore(answer), m.pending[0].address);
    TrackedCanSign(m, WalletFor(m.pending[0], answer));
  }

  /** Disconnecting everything leaves the restore with what it has yet to iterate. */
  lemma RemoveAllKeepsPending(m: Manager, answer: Answer)
    requires Succeeds(m, answer)
    ensures RemoveAll(m, true).result.Ok? && GetAll(RemoveAll(m, true).next) == []
    ensures RemoveAll(m, true).next.pending == m.pending
    ensures Succeeds(RemoveAll(m, true).next, answer)
  {
  }

  lemma ContinuedCanSign(m: Manager, answer: Answer)
    requires m.pending != [] && Succeeds(m, answer)
    ensures CanSignFor(Run(m, [ContinueRestore(answer)]), answer.address)
  {
    RunOne(m, ContinueRestore(answer));
    RestoreNextConnects(m, answer, answer.address);
  }

  /** So is a `removeAll` that disconnects everything while a restore awaits. */
  lemma RemoveAllIsUndone(m: Manager, answer: Answer)
    requires m.pending != [] && Succeeds(m, answer)
    ensures RemoveAll(m, true).result.Ok? && GetAll(RemoveAll(m, true).next) == []
    ensures CanSignFor(
              Run(m, [StartRemoveAll, FinishRemoveAll(true)] + [ContinueRestore(answer)]), answer.address)
  {
    RemoveAllKeepsPending(m, answer);
    RunRemoveAll(m, true, [ContinueRestore(answer)]);
    ContinuedCanSign(RemoveAll(m, true).next, answer);
  }

  lemma RunOne(m: Manager, a: Action)
    ensures Run(m, [a]) == Step(m, a)
  {
    assert [a][1..] == [];
  }

  /** This happens in a new session with one stored wallet. */
  lemma RemoveAllIsUndoneFromStart(saved: StoredWallet, answer: Answer)
    requires HasAddress(answer) && answer.callback.Returns?
    ensures
      var m := NewManager(Some(NEW_ADAPTER), Some(List([saved])));
      var actions := [UseAdapter(DoInit(true)), StartRestore]
                     + ([StartRemoveAll, FinishRemoveAll(true)] + [ContinueRestore(answer)]);
      CanSignFor(Run(m, actions), answer.address)
  {
    var m := NewManager(Some(NEW_ADAPTER), Some(List([saved])));
    RunTwo(m, UseAdapter(DoInit(true)), StartRestore);
    RunConcat(
      m, [UseAdapter(DoInit(true)), StartRestore],
      [StartRemoveAll, FinishRemoveAll(true)] + [ContinueRestore(answer)]);
    RemoveAllIsUndone(Step(Step(m, UseAdapter(DoInit(true))), StartRestore), answer);
  }

  /** A keypair that is added while `removeAll` awaits the disconnection survives it. */
  lemma KeypairSurvivesRemoveAll(m: Manager, address: string, succeeds: bool)
    requires ManagerOk(m)
    ensures CanSignFor(Run(m, [StartRemoveAll, AddFromSecret(Some(address)), FinishRemoveAll(succeeds)]), address)
  {
    var actions := [StartRemoveAll, AddFromSecret(Some(address)), FinishRemoveAll(succeeds)];
    assert actions == [StartRemoveAll, AddFromSecret(Some(address))] + [FinishRemoveAll(succeeds)];
    RunTwo(m, StartRemoveAll, AddFromSecret(Some(address)));
    RunConcat(m, [StartRemoveAll, AddFromSecret(Some(address))], [FinishRemoveAll(succeeds)]);
    var added := Step(ClearSigners(m), AddFromSecret(Some(address)));
    RunOne(added, FinishRemoveAll(succeeds));
    GetAfterSet([], address, address, address);
  }
}
