/**
 * What one `emit` delivers: each listener once, in insertion order, whichever
 * listeners throw, unsubscribe others or emit again.
 */
module EventDelivery {
  import opened Wrappers
  import opened Events
  import opened EventRuns

  /** `before` became `after`: it stands still, or it called the next occupied slot. */
  ghost predicate Advanced(s: State, t: State, before: Frame, after: Frame) {
    && after.id == before.id
    && after.home == before.home
    && (|| after.next == before.next
        || (&& before.next < after.next
            && (forall i :: before.next <= i < after.next - 1 ==> IsHole(s.sets, before.home, i))
            && |t.log| == |s.log| + 1
            && t.log[|s.log|].frame == before.id
            && t.log[|s.log|].slot + 1 == after.next))
  }

  predicate IsHole(sets: seq<Slots>, home: nat, i: nat) {
    home < |sets| && i < |sets[home]| && sets[home][i] == None
  }

  /** Every slot that the emit has not looked at is empty. */
  ghost predicate Exhausted(sets: seq<Slots>, frame: Frame) {
    frame.home < |sets| && forall i :: frame.next <= i < |sets[frame.home]| ==> IsHole(sets, frame.home, i)
  }

  /** What one step does to the emits in progress. */
  ghost predicate StackEffect(s: State, t: State) {
    && (forall j :: 0 <= j < |s.stack| && j < |t.stack| ==> Advanced(s, t, s.stack[j], t.stack[j]))
    && (forall j :: |s.stack| <= j < |t.stack| ==> t.stack[j].id >= s.emits)
    && (forall j :: |t.stack| <= j < |s.stack| ==> s.stack[j].id in t.aborted || Exhausted(s.sets, s.stack[j]))
    && (forall j :: 0 <= j < |s.stack| && |t.log| == |s.log| + 1 && t.log[|s.log|].frame == s.stack[j].id ==>
          s.stack[j].next <= t.log[|s.log|].slot)
  }

  lemma SameStack(s: State, t: State)
    requires t.stack == s.stack && t.log == s.log
    ensures StackEffect(s, t)
  {
  }

  lemma CallSlotStack(s: State, slot: nat)
    requires WellFormed(s) && s.stack != []
    requires
      var top := s.stack[|s.stack| - 1];
      && top.next <= slot < |s.sets[top.home]| && s.sets[top.home][slot].Some?
      && forall i :: top.next <= i < slot ==> IsHole(s.sets, top.home, i)
    ensures StackEffect(s, CallSlot(s, slot))
  {
    CallSlotSets(s, slot);
    var t := CallSlot(s, slot);
    forall j | 0 <= j < |s.stack|
      ensures Advanced(s, t, s.stack[j], t.stack[j])
    {
      assert FrameOk(s, s.stack[j]);
    }
  }

  lemma PoppedStack(s: State)
    requires s.stack != [] && Exhausted(s.sets, s.stack[|s.stack| - 1])
    ensures StackEffect(s, Popped(s))
  {
  }

  lemma SkippedAreHoles(sets: seq<Slots>, home: nat, from: nat)
    requires home < |sets| && from <= |sets[home]|
    ensures forall i :: from <= i < NextLive(sets[home], from) ==> IsHole(sets, home, i)
  {
  }

  lemma ResumeStack(s: State)
    requires WellFormed(s)
    ensures StackEffect(s, Resume(s))
  {
    if s.stack != [] {
      var top := s.stack[|s.stack| - 1];
      assert FrameOk(s, top);
      SkippedAreHoles(s.sets, top.home, top.next);
      var slot := NextLive(s.sets[top.home], top.next);
      if slot < |s.sets[top.home]| {
        CallSlotStack(s, slot);
      } else {
        PoppedStack(s);
      }
    } else {
      SameStack(s, s);
    }
  }

  lemma BegunStack(s: State, home: nat, t: State)
    requires FramesOk(s) && StackEffect(Begun(s, home), t)
    ensures StackEffect(s, t)
  {
    var u := Begun(s, home);
    forall j | 0 <= j < |s.stack| && j < |t.stack|
      ensures Advanced(s, t, s.stack[j], t.stack[j])
    {
      assert u.stack[j] == s.stack[j];
      assert Advanced(u, t, u.stack[j], t.stack[j]);
    }
    forall j | |s.stack| <= j < |t.stack|
      ensures t.stack[j].id >= s.emits
    {
      if j == |s.stack| {
        assert Advanced(u, t, u.stack[j], t.stack[j]);
      }
    }
    forall j | |t.stack| <= j < |s.stack|
      ensures s.stack[j].id in t.aborted || Exhausted(s.sets, s.stack[j])
    {
      assert u.stack[j] == s.stack[j];
    }
  }

  lemma BeginEmitStack(s: State, event: string)
    requires WellFormed(s)
    ensures StackEffect(s, BeginEmit(s, event))
  {
    if event in s.table {
      BegunOk(s, s.table[event]);
      ResumeStack(Begun(s, s.table[event]));
      BegunStack(s, s.table[event], BeginEmit(s, event));
    }
  }

  lemma EndedStack(s: State, threw: bool)
    requires WellFormed(s)
    ensures StackEffect(s, Ended(s, threw))
  {
    ResumeStack(s);
  }

  lemma StepStack(s: State, a: Action)
    requires WellFormed(s)
    ensures StackEffect(s, Step(s, a))
  {
    match a
    case Emit(event) => BeginEmitStack(s, event);
    case Return => EndedStack(s, false);
    case Throw => EndedStack(s, true);
    case On(_, _) => SameStack(s, Step(s, a));
    case Once(_, _) => SameStack(s, Step(s, a));
    case Off(_, _) => SameStack(s, Step(s, a));
    case Unsubscribe(_, _) => SameStack(s, Step(s, a));
    case RemoveAll(_) => SameStack(s, Step(s, a));
    case SetHandler(_) => SameStack(s, Step(s, a));
  }

  // ----------------------------------------------------------- exactly once

  /** How often the emit `id` called slot `i`. */
  function Calls(log: seq<Call>, id: nat, i: nat): nat {
    if log == [] then 0
    else
      var n := |log| - 1;
      Calls(log[..n], id, i) + if log[n].frame == id && log[n].slot == i then 1 else 0
  }

  predicate IsOccupied(s: State, home: nat, i: nat) {
    home < |s.sets| && i < |s.sets[home]| && s.sets[home][i].Some?
  }

  /** A listener in slot `i` waits for the emit `id`, at depth `j`, to reach it. */
  predicate Waits(s: State, j: nat, id: nat, i: nat) {
    && j < |s.stack|
    && s.stack[j].id == id
    && s.stack[j].next <= i
    && IsOccupied(s, s.stack[j].home, i)
  }

  /** The emit `id` has not reached slot `i`, and the listener there was deleted. */
  predicate WasDeleted(s: State, j: nat, id: nat, i: nat) {
    && j < |s.stack|
    && s.stack[j].id == id
    && s.stack[j].next <= i
    && IsHole(s.sets, s.stack[j].home, i)
  }

  /** The emit `id` began earlier and has passed slot `i` or is over. */
  ghost predicate IsPast(s: State, id: nat, i: nat) {
    id < s.emits && forall j :: 0 <= j < |s.stack| && s.stack[j].id == id ==> i < s.stack[j].next
  }

  ghost predicate IsOver(s: State, id: nat) {
    id < s.emits && forall j :: 0 <= j < |s.stack| ==> s.stack[j].id != id
  }

  /** At some point of the run the listener in slot `i` is deleted before its turn. */
  predicate DeletedDuring(s: State, actions: seq<Action>, j: nat, id: nat, i: nat)
    decreases |actions|
  {
    || WasDeleted(s, j, id, i)
    || (actions != [] && DeletedDuring(Step(s, actions[0]), actions[1..], j, id, i))
  }

  lemma {:induction false} CallsPositive(log: seq<Call>, id: nat, i: nat)
    ensures Calls(log, id, i) > 0 ==> exists a :: 0 <= a < |log| && log[a].frame == id && log[a].slot == i
  {
    if log != [] {
      var n := |log| - 1;
      CallsPositive(log[..n], id, i);
      if a :| 0 <= a < n && log[..n][a].frame == id && log[..n][a].slot == i {
        assert log[a].frame == id;
      }
    }
  }

  lemma NotCalledYet(s: State, j: nat, id: nat, i: nat)
    requires WellFormed(s) && Waits(s, j, id, i)
    ensures Calls(s.log, id, i) == 0
  {
    CallsPositive(s.log, id, i);
  }

  /** A step adds to the calls of a slot at most the one call that it makes. */
  lemma CallsStep(s: State, t: State, id: nat, i: nat)
    requires Effect(s, t)
    ensures t.log == s.log || |t.log| == |s.log| + 1
    ensures
      var called := |t.log| == |s.log| + 1 && t.log[|s.log|].frame == id && t.log[|s.log|].slot == i;
      Calls(t.log, id, i) == Calls(s.log, id, i) + if called then 1 else 0
  {
  }

  lemma PastStays(s: State, t: State, id: nat, i: nat)
    requires WellFormed(s) && Effect(s, t) && StackEffect(s, t) && IsPast(s, id, i)
    ensures IsPast(t, id, i) && Calls(t.log, id, i) == Calls(s.log, id, i)
  {
    CallsStep(s, t, id, i);
    forall j | 0 <= j < |t.stack| && t.stack[j].id == id
      ensures j < |s.stack| && s.stack[j].id == id && i < s.stack[j].next <= t.stack[j].next
    {
      if j < |s.stack| {
        assert Advanced(s, t, s.stack[j], t.stack[j]);
      }
    }
  }

  /** An emit that was at depth `j` is there, one slot further or not, or it is over. */
  lemma DepthStays(s: State, t: State, j: nat, id: nat)
    requires WellFormed(s) && Effect(s, t) && StackEffect(s, t)
    requires j < |s.stack| && s.stack[j].id == id
    ensures j < |t.stack| ==> Advanced(s, t, s.stack[j], t.stack[j])
    ensures forall k :: 0 <= k < |t.stack| && t.stack[k].id == id ==> k == j
    ensures id < t.emits
  {
    assert FrameOk(s, s.stack[j]);
    forall k | 0 <= k < |t.stack| && t.stack[k].id == id
      ensures k == j
    {
      if k < |s.stack| {
        assert Advanced(s, t, s.stack[k], t.stack[k]);
      }
    }
  }

  lemma DeletedStays(s: State, t: State, j: nat, id: nat, i: nat)
    requires WellFormed(s) && Effect(s, t) && StackEffect(s, t) && WasDeleted(s, j, id, i)
    ensures WasDeleted(t, j, id, i) || IsPast(t, id, i)
    ensures Calls(t.log, id, i) == Calls(s.log, id, i)
  {
    DepthStays(s, t, j, id);
    CallsStep(s, t, id, i);
    assert t.sets[s.stack[j].home][i] == None;
  }

  /** The listener still waits, was deleted, was called, or its emit was left before. */
  ghost predicate IsSettling(t: State, j: nat, id: nat, i: nat) {
    || (Waits(t, j, id, i) && Calls(t.log, id, i) == 0)
    || (WasDeleted(t, j, id, i) && Calls(t.log, id, i) == 0)
    || (IsPast(t, id, i) && Calls(t.log, id, i) == 1)
    || (IsPast(t, id, i) && Calls(t.log, id, i) == 0 && id in t.aborted)
  }

  lemma WaitsStep(s: State, t: State, j: nat, id: nat, i: nat)
    requires WellFormed(s) && Effect(s, t) && StackEffect(s, t) && Waits(s, j, id, i)
    ensures IsSettling(t, j, id, i)
  {
    NotCalledYet(s, j, id, i);
    DepthStays(s, t, j, id);
    CallsStep(s, t, id, i);
    var home := s.stack[j].home;
    assert t.sets[home][i] == s.sets[home][i] || t.sets[home][i] == None;
    if j < |t.stack| {
      if t.stack[j].next <= i {
        assert t.log != s.log && t.log[|s.log|].frame == id ==> t.log[|s.log|].slot < i;
      } else {
        assert !IsHole(s.sets, home, i);
      }
    } else {
      assert !IsHole(s.sets, home, i);
    }
  }

  lemma {:induction false} RunAfterPast(s: State, actions: seq<Action>, j: nat, id: nat, i: nat)
    requires WellFormed(s) && IsPast(s, id, i)
    ensures Calls(Run(s, actions).log, id, i) == Calls(s.log, id, i)
    ensures !DeletedDuring(s, actions, j, id, i)
    decreases |actions|
  {
    if actions != [] {
      var t := Step(s, actions[0]);
      StepEffect(s, actions[0]);
      StepStack(s, actions[0]);
      PastStays(s, t, id, i);
      RunAfterPast(t, actions[1..], j, id, i);
    }
  }

  lemma {:induction false} RunAfterDeleted(s: State, actions: seq<Action>, j: nat, id: nat, i: nat)
    requires WellFormed(s) && WasDeleted(s, j, id, i)
    ensures Calls(Run(s, actions).log, id, i) == Calls(s.log, id, i)
    decreases |actions|
  {
    if actions != [] {
      var t := Step(s, actions[0]);
      StepEffect(s, actions[0]);
      StepStack(s, actions[0]);
      DeletedStays(s, t, j, id, i);
      if WasDeleted(t, j, id, i) {
        RunAfterDeleted(t, actions[1..], j, id, i);
      } else {
        RunAfterPast(t, actions[1..], j, id, i);
      }
    }
  }

  lemma {:induction false} AbortedGrows(s: State, actions: seq<Action>)
    requires WellFormed(s)
    ensures s.aborted <= Run(s, actions).aborted
    decreases |actions|
  {
    if actions != [] {
      StepEffect(s, actions[0]);
      AbortedGrows(Step(s, actions[0]), actions[1..]);
    }
  }

  lemma {:induction false} WaitingIsCalledOnce(s: State, actions: seq<Action>, j: nat, id: nat, i: nat)
    requires WellFormed(s) && Waits(s, j, id, i)
    ensures Calls(Run(s, actions).log, id, i) <= 1
    ensures IsOver(Run(s, actions), id) && id !in Run(s, actions).aborted ==>
              (Calls(Run(s, actions).log, id, i) == 1 <==> !DeletedDuring(s, actions, j, id, i))
    decreases |actions|, 0
  {
    NotCalledYet(s, j, id, i);
    if actions != [] {
      StepEffect(s, actions[0]);
      StepStack(s, actions[0]);
      WaitsStep(s, Step(s, actions[0]), j, id, i);
      OutcomeFrom(Step(s, actions[0]), actions[1..], j, id, i);
    }
  }

  /** From any of the four outcomes of a step, the rest of the run settles the matter. */
  lemma {:induction false} OutcomeFrom(t: State, actions: seq<Action>, j: nat, id: nat, i: nat)
    requires WellFormed(t) && IsSettling(t, j, id, i)
    ensures Calls(Run(t, actions).log, id, i) <= 1
    ensures IsOver(Run(t, actions), id) && id !in Run(t, actions).aborted ==>
              (Calls(Run(t, actions).log, id, i) == 1 <==> !DeletedDuring(t, actions, j, id, i))
    decreases |actions|, 1
  {
    if Waits(t, j, id, i) {
      WaitingIsCalledOnce(t, actions, j, id, i);
    } else if WasDeleted(t, j, id, i) {
      RunAfterDeleted(t, actions, j, id, i);
    } else {
      RunAfterPast(t, actions, j, id, i);
      AbortedGrows(t, actions);
    }
  }

  /** When an emit begins, every listener waits; then its loop takes the first step. */
  lemma LoopStarts(s: State, home: nat, i: nat)
    requires WellFormed(s) && IsOccupied(s, home, i)
    ensures WellFormed(Resume(Begun(s, home)))
    ensures IsSettling(Resume(Begun(s, home)), |s.stack|, s.emits, i)
  {
    var u := Begun(s, home);
    BegunOk(s, home);
    ResumeEffect(u);
    ResumeStack(u);
    WaitsStep(u, Resume(u), |s.stack|, s.emits, i);
  }

  /**
   * `emit` isolates listeners. Take any slot that is occupied when an emit begins
   * and any run from there. When the emit has come to its end, the listener in
   * the slot has been called exactly once, unless it was deleted before its turn,
   * and then not at all; only an error handler that throws can cut the emit
   * short. `removeAllListeners` deletes nothing from a Set, so it does not stop
   * an emit in progress.
   */
  lemma EmitCallsEachListenerOnce(s: State, event: string, i: nat, actions: seq<Action>)
    requires WellFormed(s) && event in s.table && IsOccupied(s, s.table[event], i)
    ensures
      var id, j, t := s.emits, |s.stack|, Run(BeginEmit(s, event), actions);
      && Calls(t.log, id, i) <= 1
      && (IsOver(t, id) && id !in t.aborted ==>
            (Calls(t.log, id, i) == 1 <==> !DeletedDuring(BeginEmit(s, event), actions, j, id, i)))
  {
    LoopStarts(s, s.table[event], i);
    OutcomeFrom(BeginEmit(s, event), actions, |s.stack|, s.emits, i);
  }

  // ------------------------------------------- what does not stop an emit

  /** The action deletes no function with this number from any Set. */
  predicate Spares(a: Action, id: nat) {
    match a
    case Off(_, removed) => removed != id
    case Unsubscribe(_, f) => f != Listener(id)
    case _ => true
  }

  predicate IsListenerAt(sets: seq<Slots>, home: nat, i: nat, id: nat) {
    home < |sets| && i < |sets[home]| && sets[home][i] == Some(Listener(id))
  }

  lemma UnsubscribedSpares(s: State, removed: nat, f: Function, home: nat, i: nat, id: nat)
    requires SetsOk(s) && IsListenerAt(s.sets, home, i, id) && f != Listener(id)
    ensures IsListenerAt(Unsubscribed(s, removed, f).sets, home, i, id)
  {
    if removed < |s.sets| {
      RemovedMeaning(s.sets[removed], f);
    }
  }

  lemma SubscribeSpares(s: State, event: string, f: Function, home: nat, i: nat, id: nat)
    requires IsListenerAt(s.sets, home, i, id)
    ensures IsListenerAt(Subscribe(s, event, f).sets, home, i, id)
  {
    if event in s.table && s.table[event] < |s.sets| {
      AddedMeaning(s.sets[s.table[event]], f);
    }
  }

  lemma ResumeSpares(s: State, home: nat, i: nat, id: nat)
    requires WellFormed(s) && IsListenerAt(s.sets, home, i, id)
    ensures IsListenerAt(Resume(s).sets, home, i, id)
  {
    if s.stack != [] {
      var top := s.stack[|s.stack| - 1];
      assert FrameOk(s, top);
      var slot := NextLive(s.sets[top.home], top.next);
      if slot < |s.sets[top.home]| {
        var f := s.sets[top.home][slot].value;
        if f.OnceWrapper? {
          assert IsHoused(s.wrappers, top.home, s.sets[top.home][slot]);
          UnsubscribedSpares(Called(s, slot, f), top.home, f, home, i, id);
        }
      }
    }
  }

  /** Only `off` and the returned functions delete a caller's listener. */
  lemma StepSpares(s: State, a: Action, home: nat, i: nat, id: nat)
    requires WellFormed(s) && IsListenerAt(s.sets, home, i, id) && Spares(a, id)
    ensures IsListenerAt(Step(s, a).sets, home, i, id)
  {
    match a
    case On(event, added) => SubscribeSpares(s, event, Listener(added), home, i, id);
    case Once(event, added) =>
      SubscribeSpares(
        s.(wrappers := s.wrappers + [Registration(HomeFor(s, event), added)]), event,
        OnceWrapper(|s.wrappers|), home, i, id);
    case Off(event, removed) =>
      if event in s.table {
        UnsubscribedSpares(s, s.table[event], Listener(removed), home, i, id);
      }
    case Unsubscribe(removed, f) => UnsubscribedSpares(s, removed, f, home, i, id);
    case Emit(event) =>
      if event in s.table {
        BegunOk(s, s.table[event]);
        ResumeSpares(Begun(s, s.table[event]), home, i, id);
      }
    case Return => ResumeSpares(s, home, i, id);
    case Throw => ResumeSpares(s, home, i, id);
    case RemoveAll(_) =>
    case SetHandler(_) =>
  }

  /** The emit `frame`, if it is at depth `j`, iterates the Set `home`. */
  predicate Iterates(s: State, j: nat, frame: nat, home: nat) {
    frame < s.emits && (j < |s.stack| && s.stack[j].id == frame ==> s.stack[j].home == home)
  }

  lemma IteratesStep(s: State, t: State, j: nat, frame: nat, home: nat)
    requires WellFormed(s) && Effect(s, t) && StackEffect(s, t) && Iterates(s, j, frame, home)
    ensures Iterates(t, j, frame, home)
  {
    if j < |t.stack| && t.stack[j].id == frame && j < |s.stack| {
      assert Advanced(s, t, s.stack[j], t.stack[j]);
    }
  }

  lemma {:induction false} SparedIsNotDeleted(
    s: State, actions: seq<Action>, j: nat, frame: nat, home: nat, i: nat, id: nat)
    requires WellFormed(s) && Iterates(s, j, frame, home) && IsListenerAt(s.sets, home, i, id)
    requires forall k :: 0 <= k < |actions| ==> Spares(actions[k], id)
    ensures !DeletedDuring(s, actions, j, frame, i)
    decreases |actions|
  {
    if actions != [] {
      var t := Step(s, actions[0]);
      StepEffect(s, actions[0]);
      StepStack(s, actions[0]);
      StepSpares(s, actions[0], home, i, id);
      IteratesStep(s, t, j, frame, home);
      SparedIsNotDeleted(t, actions[1..], j, frame, home, i, id);
    }
  }

  lemma BeginEmitSpares(s: State, event: string, i: nat, id: nat)
    requires WellFormed(s) && event in s.table && IsListenerAt(s.sets, s.table[event], i, id)
    ensures
      var t := BeginEmit(s, event);
      && WellFormed(t)
      && Iterates(t, |s.stack|, s.emits, s.table[event])
      && IsListenerAt(t.sets, s.table[event], i, id)
  {
    var u := Begun(s, s.table[event]);
    BegunOk(s, s.table[event]);
    ResumeEffect(u);
    ResumeStack(u);
    ResumeSpares(u, s.table[event], i, id);
    IteratesStep(u, Resume(u), |s.stack|, s.emits, s.table[event]);
  }

  /**
   * Nothing but `off` with the listener itself and the functions that `on`
   * returned for it stop an emit from reaching a listener: whatever else happens
   * after it begins, `removeAllListeners` included, the emit has called the
   * listener exactly once when it comes to its end.
   */
  lemma RemoveAllDoesNotStopEmit(s: State, event: string, i: nat, id: nat, actions: seq<Action>)
    requires WellFormed(s) && event in s.table && IsListenerAt(s.sets, s.table[event], i, id)
    requires forall k :: 0 <= k < |actions| ==> Spares(actions[k], id)
    ensures
      var t := Run(BeginEmit(s, event), actions);
      IsOver(t, s.emits) && s.emits !in t.aborted ==> Calls(t.log, s.emits, i) == 1
  {
    BeginEmitSpares(s, event, i, id);
    SparedIsNotDeleted(BeginEmit(s, event), actions, |s.stack|, s.emits, s.table[event], i, id);
    EmitCallsEachListenerOnce(s, event, i, actions);
  }

  /** The calls of one emit are in insertion order, all from one Set. */
  lemma CallsAreInOrder(actions: seq<Action>, a: nat, b: nat)
    requires a < b < |Run(INITIAL, actions).log|
    requires Run(INITIAL, actions).log[a].frame == Run(INITIAL, actions).log[b].frame
    ensures Run(INITIAL, actions).log[a].home == Run(INITIAL, actions).log[b].home
    ensures Run(INITIAL, actions).log[a].slot < Run(INITIAL, actions).log[b].slot
  {
    RunKeepsInvariant(INITIAL, actions);
  }
}
