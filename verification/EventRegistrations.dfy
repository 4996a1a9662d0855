/**
 * Which functions are registered for which event in every run, that `once` runs
 * its listener at the next emit, and where the errors of listeners go.
 */
module EventRegistrations {
  import opened Wrappers
  import opened Events
  import opened EventRuns
  import opened EventDelivery
  import opened EventCosts

  /** No two events share a Set. */
  ghost predicate AreSplit(s: State) {
    forall e, e' :: e in s.table && e' in s.table && e != e' ==> s.table[e] != s.table[e']
  }

  /** The step from `s` to `t` called the function. */
  predicate WasCalled(s: State, t: State, f: Function) {
    |t.log| > |s.log| && t.log[|s.log|].f == f
  }

  /** What a step decides about a function being registered for an event; None if nothing. */
  function RegistrationDecision(s: State, a: Action, event: string, f: Function): Option<bool> {
    match a
    case On(e, id) => if e == event && f == Listener(id) then Some(true) else None
    case Once(e, _) => if e == event && f == OnceWrapper(|s.wrappers|) then Some(true) else None
    case Off(e, id) => if e == event && f == Listener(id) then Some(false) else None
    case Unsubscribe(home, g) =>
      if g == f && event in s.table && s.table[event] == home then Some(false) else None
    case RemoveAll(which) => if which == None || which == Some(event) then Some(false) else None
    case SetHandler(_) => None
    case _ => if f.OnceWrapper? && WasCalled(s, Step(s, a), f) then Some(false) else None
  }

  /** Whether a function is registered, by the last step of a run that decides about it. */
  function LastRegistration(s: State, actions: seq<Action>, event: string, f: Function): bool
    decreases |actions|
  {
    if actions == [] then IsRegistered(s, event, f)
    else
      var n := |actions| - 1;
      match RegistrationDecision(Run(s, actions[..n]), actions[n], event, f)
      case Some(registered) => registered
      case None => LastRegistration(s, actions[..n], event, f)
  }

  lemma SubscribeRegisters(s: State, e: string, f: Function, event: string, g: Function)
    requires FramesOk(s) && AreSplit(s)
    ensures AreSplit(Subscribe(s, e, f))
    ensures IsRegistered(Subscribe(s, e, f), event, g) <==> (e == event && f == g) || IsRegistered(s, event, g)
  {
    var t := Subscribe(s, e, f);
    if e in s.table {
      var slots := s.sets[s.table[e]];
      AddedMeaning(slots, f);
      assert Find(slots, f) < |slots| ==> slots[Find(slots, f)] == Some(f);
    } else {
      assert t.sets[|s.sets|] == [Some(f)];
      assert forall h :: 0 <= h < |s.sets| ==> t.sets[h] == s.sets[h];
    }
  }

  lemma RemovedMember(slots: Slots, f: Function, g: Function)
    requires forall i, j :: 0 <= i < j < |slots| && slots[i].Some? ==> slots[i] != slots[j]
    ensures Some(g) in Removed(slots, f) <==> g != f && Some(g) in slots
  {
    RemovedMeaning(slots, f);
    if Some(g) in slots && g != f {
      var i :| 0 <= i < |slots| && slots[i] == Some(g);
      assert Removed(slots, f)[i] == Some(g);
    }
  }

  lemma UnsubscribedRegisters(s: State, home: nat, f: Function, event: string, g: Function)
    requires SetsOk(s)
    ensures IsRegistered(Unsubscribed(s, home, f), event, g)
       <==> IsRegistered(s, event, g) && !(f == g && s.table[event] == home)
  {
    if home < |s.sets| {
      RemovedMember(s.sets[home], f, g);
    }
  }

  /** Calling a function takes it away if it is a `once` wrapper, and nothing else. */
  lemma ResumeRegisters(s: State, event: string, f: Function)
    requires WellFormed(s)
    ensures Resume(s).table == s.table
    ensures IsRegistered(Resume(s), event, f)
       <==> IsRegistered(s, event, f) && !(f.OnceWrapper? && WasCalled(s, Resume(s), f))
  {
    if s.stack != [] {
      FrameInBounds(s);
      var top := s.stack[|s.stack| - 1];
      var slot := NextLive(s.sets[top.home], top.next);
      if slot < |s.sets[top.home]| {
        CallSlotRegisters(s, slot, event, f);
      }
    }
  }

  lemma CallSlotRegisters(s: State, slot: nat, event: string, f: Function)
    requires WellFormed(s) && s.stack != []
    requires
      var top := s.stack[|s.stack| - 1];
      top.next <= slot < |s.sets[top.home]| && s.sets[top.home][slot].Some?
    ensures CallSlot(s, slot).table == s.table
    ensures IsRegistered(CallSlot(s, slot), event, f)
       <==> IsRegistered(s, event, f) && !(f.OnceWrapper? && WasCalled(s, CallSlot(s, slot), f))
  {
    var top := s.stack[|s.stack| - 1];
    var g := s.sets[top.home][slot].value;
    var called := Called(s, slot, g);
    CallSlotSets(s, slot);
    if g.OnceWrapper? {
      assert IsHoused(s.wrappers, top.home, s.sets[top.home][slot]);
      UnsubscribedRegisters(called, top.home, g, event, f);
      if f == g && IsRegistered(s, event, f) {
        var i :| 0 <= i < |s.sets[s.table[event]]| && s.sets[s.table[event]][i] == Some(f);
        assert IsHoused(s.wrappers, s.table[event], s.sets[s.table[event]][i]);
      }
    }
  }

  lemma BeginEmitRegisters(s: State, e: string, event: string, f: Function)
    requires WellFormed(s)
    ensures BeginEmit(s, e).table == s.table
    ensures IsRegistered(BeginEmit(s, e), event, f)
       <==> IsRegistered(s, event, f) && !(f.OnceWrapper? && WasCalled(s, BeginEmit(s, e), f))
  {
    if e in s.table {
      BegunOk(s, s.table[e]);
      ResumeRegisters(Begun(s, s.table[e]), event, f);
    }
  }

  lemma EndedRegisters(s: State, threw: bool, event: string, f: Function)
    requires WellFormed(s)
    ensures Ended(s, threw).table == s.table
    ensures IsRegistered(Ended(s, threw), event, f)
       <==> IsRegistered(s, event, f) && !(f.OnceWrapper? && WasCalled(s, Ended(s, threw), f))
  {
    ResumeRegisters(s, event, f);
  }

  /** Every step registers and removes exactly what `RegistrationDecision` says. */
  lemma StepRegisters(s: State, a: Action, event: string, f: Function)
    requires WellFormed(s) && AreSplit(s)
    ensures AreSplit(Step(s, a))
    ensures IsRegistered(Step(s, a), event, f)
       <==> (match RegistrationDecision(s, a, event, f)
             case Some(registered) => registered
             case None => IsRegistered(s, event, f))
  {
    match a
    case On(e, id) => SubscribeRegisters(s, e, Listener(id), event, f);
    case Once(e, id) =>
      var u := s.(wrappers := s.wrappers + [Registration(HomeFor(s, e), id)]);
      MoreWrappersKeepInvariant(s, Registration(HomeFor(s, e), id));
      SubscribeRegisters(u, e, OnceWrapper(|s.wrappers|), event, f);
    case Off(e, id) =>
      if e in s.table {
        UnsubscribedRegisters(s, s.table[e], Listener(id), event, f);
      }
    case Unsubscribe(home, g) => UnsubscribedRegisters(s, home, g, event, f);
    case Emit(e) => BeginEmitRegisters(s, e, event, f);
    case Return => EndedRegisters(s, false, event, f);
    case Throw => EndedRegisters(s, true, event, f);
    case RemoveAll(_) =>
    case SetHandler(_) =>
  }

  lemma {:induction false} RunConcat(s: State, a: seq<Action>, b: seq<Action>)
    ensures Run(s, a + b) == Run(Run(s, a), b)
    decreases |a|
  {
    if a == [] {
      assert a + b == b;
    } else {
      assert (a + b)[1..] == a[1..] + b;
      RunConcat(Step(s, a[0]), a[1..], b);
    }
  }

  /**
   * In every run a function is registered for an event at the end exactly as the
   * last step that concerns it left it: added by `on` or `once` of that event,
   * removed by `off` of it, by the function returned, by `removeAllListeners`, or
   * for `once` by being called. Nothing that is done to other events matters.
   */
  lemma {:induction false} RegisteredAsLastDecided(s: State, actions: seq<Action>, event: string, f: Function)
    requires WellFormed(s) && AreSplit(s)
    ensures WellFormed(Run(s, actions)) && AreSplit(Run(s, actions))
    ensures IsRegistered(Run(s, actions), event, f) <==> LastRegistration(s, actions, event, f)
    decreases |actions|
  {
    if actions != [] {
      var n := |actions| - 1;
      var front, last := actions[..n], actions[n];
      RegisteredAsLastDecided(s, front, event, f);
      assert actions == front + [last];
      RunConcat(s, front, [last]);
      assert Run(Run(s, front), [last]) == Step(Run(s, front), last);
      StepRegisters(Run(s, front), last, event, f);
      StepKeepsInvariant(Run(s, front), last);
    }
  }

  // ------------------------------------------------------------- once runs

  /** Where `once` puts its wrapper: behind the slots of the event's Set. */
  function NewSlot(s: State, event: string): nat {
    if HomeFor(s, event) < |s.sets| then |s.sets[HomeFor(s, event)]| else 0
  }

  /**
   * `once` adds a new wrapper for the listener behind the slots of the event's Set,
   * also if the listener is registered already, and changes no other slot.
   */
  lemma OnceRegisters(s: State, event: string, id: nat)
    requires WellFormed(s)
    ensures
      var t := Step(s, Once(event, id));
      var home, f := HomeFor(s, event), OnceWrapper(|s.wrappers|);
      && WellFormed(t) && event in t.table && t.table[event] == home < |t.sets|
      && t.sets[home] == (if home < |s.sets| then s.sets[home] else []) + [Some(f)]
      && (forall h :: 0 <= h < |s.sets| && h != home ==> t.sets[h] == s.sets[h])
      && t.wrappers == s.wrappers + [Registration(home, id)]
      && Runs(t.wrappers, f) == Some(id)
      && ListenerCount(t, event) == ListenerCount(s, event) + 1
  {
    var home, f := HomeFor(s, event), OnceWrapper(|s.wrappers|);
    StepKeepsInvariant(s, Once(event, id));
    if home < |s.sets| {
      assert forall i :: 0 <= i < |s.sets[home]| ==> IsHoused(s.wrappers, home, s.sets[home][i]);
      AddedMeaning(s.sets[home], f);
      SizeOfAdded(s.sets[home], f);
    } else {
      SizeOfAdded([], f);
      assert [] + [Some(f)] == [Some(f)];
    }
  }

  lemma OnceIsRegistered(s: State, event: string, id: nat)
    requires WellFormed(s)
    ensures
      var t, f := Step(s, Once(event, id)), OnceWrapper(|s.wrappers|);
      && IsRegistered(t, event, f) && Runs(t.wrappers, f) == Some(id)
      && ListenerCount(t, event) == ListenerCount(s, event) + 1
  {
    OnceRegisters(s, event, id);
  }

  /** How often the emit `frame` ran the caller's function `id` from slot `i`. */
  function TimesRun(log: seq<Call>, frame: nat, i: nat, id: nat): nat {
    if log == [] then 0
    else
      var n := |log| - 1;
      TimesRun(log[..n], frame, i, id)
      + if log[n].frame == frame && log[n].slot == i && log[n].ran == Some(id) then 1 else 0
  }

  /**
   * The slot holds the function or has been emptied, the function runs `id`, and
   * the emit, if it is not over, is at depth `j` and iterates the slot's Set.
   */
  ghost predicate IsSlotOf(s: State, j: nat, frame: nat, home: nat, i: nat, f: Function, id: nat) {
    && home < |s.sets| && i < |s.sets[home]|
    && (s.sets[home][i] == Some(f) || s.sets[home][i] == None)
    && Runs(s.wrappers, f) == Some(id)
    && Iterates(s, j, frame, home)
    && forall k :: 0 <= k < |s.stack| && s.stack[k].id == frame ==> k == j
  }

  /** Whatever the emit called in slot `i` ran `id`. */
  ghost predicate RanOnly(log: seq<Call>, frame: nat, i: nat, id: nat) {
    forall a :: 0 <= a < |log| && log[a].frame == frame && log[a].slot == i ==> log[a].ran == Some(id)
  }

  lemma {:induction false} AllRunTheListener(log: seq<Call>, frame: nat, i: nat, id: nat)
    requires RanOnly(log, frame, i, id)
    ensures TimesRun(log, frame, i, id) == Calls(log, frame, i)
  {
    if log != [] {
      AllRunTheListener(log[..|log| - 1], frame, i, id);
    }
  }

  lemma SlotStays(s: State, t: State, j: nat, frame: nat, home: nat, i: nat, f: Function, id: nat)
    requires WellFormed(s) && Effect(s, t) && StackEffect(s, t) && IsSlotOf(s, j, frame, home, i, f, id)
    requires RanOnly(s.log, frame, i, id)
    ensures IsSlotOf(t, j, frame, home, i, f, id) && RanOnly(t.log, frame, i, id)
  {
    IteratesStep(s, t, j, frame, home);
    assert f.OnceWrapper? ==> t.wrappers[f.serial] == s.wrappers[f.serial];
    forall k | 0 <= k < |t.stack| && t.stack[k].id == frame
      ensures k == j
    {
      assert k < |s.stack| ==> Advanced(s, t, s.stack[k], t.stack[k]);
    }
    forall a | 0 <= a < |t.log| && t.log[a].frame == frame && t.log[a].slot == i
      ensures t.log[a].ran == Some(id)
    {
      if a < |s.log| {
        assert t.log[a] == s.log[a];
      } else {
        assert IsCall(s, t, t.log[a]);
        assert t.stack[|t.stack| - 1].id == frame;
      }
    }
  }

  lemma {:induction false} SlotRunsOnly(
    s: State, actions: seq<Action>, j: nat, frame: nat, home: nat, i: nat, f: Function, id: nat)
    requires WellFormed(s) && IsSlotOf(s, j, frame, home, i, f, id) && RanOnly(s.log, frame, i, id)
    ensures RanOnly(Run(s, actions).log, frame, i, id)
    decreases |actions|
  {
    if actions != [] {
      StepEffect(s, actions[0]);
      StepStack(s, actions[0]);
      SlotStays(s, Step(s, actions[0]), j, frame, home, i, f, id);
      SlotRunsOnly(Step(s, actions[0]), actions[1..], j, frame, home, i, f, id);
    }
  }

  /** An emit that begins while a slot holds a function runs only that function's listener from it. */
  lemma EmitRunsTheListener(s: State, event: string, i: nat, f: Function, id: nat, actions: seq<Action>)
    requires WellFormed(s) && event in s.table && IsOccupied(s, s.table[event], i)
    requires s.sets[s.table[event]][i] == Some(f) && Runs(s.wrappers, f) == Some(id)
    ensures
      var log := Run(BeginEmit(s, event), actions).log;
      TimesRun(log, s.emits, i, id) == Calls(log, s.emits, i)
  {
    var home := s.table[event];
    var u := Begun(s, home);
    BegunOk(s, home);
    ResumeEffect(u);
    ResumeStack(u);
    SlotStays(u, Resume(u), |s.stack|, s.emits, home, i, f, id);
    SlotRunsOnly(BeginEmit(s, event), actions, |s.stack|, s.emits, home, i, f, id);
    AllRunTheListener(Run(BeginEmit(s, event), actions).log, s.emits, i, id);
  }

  /**
   * A listener passed to `once` runs exactly once at the next emit of the event,
   * whatever calls of `off` come in between, also those that name it, unless the
   * function that `once` returned deletes it before its turn.
   */
  lemma OnceRunsDespiteOff(s: State, event: string, id: nat, offs: seq<Action>, actions: seq<Action>)
    requires WellFormed(s) && forall k :: 0 <= k < |offs| ==> offs[k].Off?
    ensures
      var begun := BeginEmit(Run(Step(s, Once(event, id)), offs), event);
      var i, j, t := NewSlot(s, event), |s.stack|, Run(begun, actions);
      && TimesRun(t.log, s.emits, i, id) <= 1
      && (IsOver(t, s.emits) && s.emits !in t.aborted ==>
            (TimesRun(t.log, s.emits, i, id) == 1 <==> !DeletedDuring(begun, actions, j, s.emits, i)))
  {
    var once, home, i := Step(s, Once(event, id)), HomeFor(s, event), NewSlot(s, event);
    var f := OnceWrapper(|s.wrappers|);
    OnceRegisters(s, event, id);
    assert once.sets[home][i] == Some(f);
    OffKeepsOnce(once, offs, home, i, |s.wrappers|);
    var u := Run(once, offs);
    EmitCallsEachListenerOnce(u, event, i, actions);
    EmitRunsTheListener(u, event, i, f, id, actions);
  }

  // ---------------------------------------------------- errors of listeners

  /**
   * A listener's error reaches the handler exactly when one is set. Either way the
   * emit then goes on as if the listener had returned, unless the handler throws,
   * which leaves the emit.
   */
  lemma ErrorsAreIsolated(s: State)
    requires WellFormed(s) && s.stack != [] && s.stack[|s.stack| - 1].phase == InListener
    ensures
      var n, threw := |s.stack| - 1, Step(s, Throw);
      && (|threw.stack| == |s.stack| && threw.stack[n].phase == InHandler <==> s.hasHandler)
      && (s.hasHandler ==> threw.log == s.log && threw.sets == s.sets)
      && (s.hasHandler ==> Step(threw, Return) == Step(s, Return))
      && (s.hasHandler ==>
            Step(threw, Throw) == s.(stack := s.stack[..n], aborted := s.aborted + {s.stack[n].id}))
      && (!s.hasHandler ==> threw == Step(s, Return))
  {
    var n, threw := |s.stack| - 1, Step(s, Throw);
    FrameInBounds(s);
    if s.hasHandler {
      var top := s.stack[n];
      assert threw.stack[..n] == s.stack[..n];
      var slot := NextLive(s.sets[top.home], top.next);
      if slot < |s.sets[top.home]| {
        var f := s.sets[top.home][slot].value;
        assert Called(threw, slot, f).stack == Called(s, slot, f).stack;
      }
    }
  }

  /** Whether a handler is set, by the last `setErrorHandler` of a run. */
  function LastHandler(before: bool, actions: seq<Action>): bool {
    if actions == [] then before
    else
      var n := |actions| - 1;
      if actions[n].SetHandler? then actions[n].present else LastHandler(before, actions[..n])
  }

  lemma StepHandler(s: State, a: Action)
    ensures Step(s, a).hasHandler == if a.SetHandler? then a.present else s.hasHandler
  {
  }

  lemma {:induction false} HandlerIsLastSet(s: State, actions: seq<Action>)
    ensures Run(s, actions).hasHandler == LastHandler(s.hasHandler, actions)
    decreases |actions|
  {
    if actions != [] {
      var n := |actions| - 1;
      HandlerIsLastSet(s, actions[..n]);
      assert actions == actions[..n] + [actions[n]];
      RunConcat(s, actions[..n], [actions[n]]);
      assert Run(Run(s, actions[..n]), [actions[n]]) == Step(Run(s, actions[..n]), actions[n]);
      StepHandler(Run(s, actions[..n]), actions[n]);
    }
  }
}
