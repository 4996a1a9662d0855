/** What holds in every run of the emitter, whatever listeners do while they run. */
module EventRuns {
  import opened Wrappers
  import opened Events

  /** No Set holds the wrapper. */
  ghost predicate Absent(s: State, serial: nat) {
    forall h, i :: 0 <= h < |s.sets| && 0 <= i < |s.sets[h]| ==> s.sets[h][i] != Some(OnceWrapper(serial))
  }

  /** `c` was made by the innermost emit of `t`, from a slot that was occupied in `s`. */
  ghost predicate IsCall(s: State, t: State, c: Call) {
    && c.home < |s.sets| && c.slot < |s.sets[c.home]|
    && s.sets[c.home][c.slot] == Some(c.f)
    && c.ran == Runs(s.wrappers, c.f)
    && (c.f.OnceWrapper? ==> Absent(t, c.f.serial))
    && t.stack != []
    && (var top := t.stack[|t.stack| - 1]; c.frame == top.id && c.home == top.home && c.slot + 1 == top.next)
  }

  /** What one step can do: Sets evolve, history grows, and at most one listener is called. */
  ghost predicate Effect(s: State, t: State) {
    && WellFormed(t)
    && SetsEvolve(s, t)
    && s.emits <= t.emits
    && s.aborted <= t.aborted
    && (t.log == s.log || (|t.log| > 0 && t.log[..|t.log| - 1] == s.log && IsCall(s, t, t.log[|t.log| - 1])))
  }

  // ------------------------------------------------------ steps keep Effect

  lemma HomeIsOnlyPlace(s: State, t: State, home: nat, f: Function)
    requires SetsOk(s) && f.OnceWrapper? && f.serial < |s.wrappers| && s.wrappers[f.serial].home == home
    requires t == Unsubscribed(s, home, f)
    ensures Absent(t, f.serial)
  {
    UnsubscribedEvolves(s, home, f);
  }

  /** The frame and log invariants look at the Sets only through their lengths. */
  lemma LongerSetsOk(s: State, t: State)
    requires FramesOk(s) && LogOk(s)
    requires t.stack == s.stack && t.emits == s.emits && t.log == s.log
    requires forall event :: event in t.table ==> t.table[event] < |t.sets|
    requires |s.sets| <= |t.sets| && forall h :: 0 <= h < |s.sets| ==> |s.sets[h]| <= |t.sets[h]|
    ensures FramesOk(t) && LogOk(t)
  {
    forall j | 0 <= j < |t.stack|
      ensures FrameOk(t, t.stack[j])
    {
      assert FrameOk(s, s.stack[j]);
    }
  }

  lemma CalledFrames(s: State, slot: nat, f: Function)
    requires FramesOk(s) && s.stack != []
    requires slot < |s.sets[s.stack[|s.stack| - 1].home]|
    ensures FramesOk(Called(s, slot, f))
  {
    var t := Called(s, slot, f);
    forall j | 0 <= j < |t.stack|
      ensures FrameOk(t, t.stack[j])
    {
      assert FrameOk(s, s.stack[j]);
    }
  }

  lemma CalledLog(s: State, slot: nat, f: Function)
    requires FramesOk(s) && LogOk(s) && s.stack != [] && s.stack[|s.stack| - 1].next <= slot
    ensures LogOk(Called(s, slot, f))
  {
    var t := Called(s, slot, f);
    var n := |s.stack| - 1;
    forall a, j | 0 <= a < |t.log| && 0 <= j < |t.stack| && t.log[a].frame == t.stack[j].id
      ensures t.log[a].home == t.stack[j].home && t.log[a].slot < t.stack[j].next
    {
      assert t.stack[j].id == s.stack[j].id && t.stack[j].home == s.stack[j].home;
      if a == |s.log| {
        assert j == n;
      }
    }
    forall a, b | 0 <= a < b < |t.log| && t.log[a].frame == t.log[b].frame
      ensures t.log[a].home == t.log[b].home && t.log[a].slot < t.log[b].slot
    {
      if b == |s.log| {
        assert s.log[a].frame == s.stack[n].id;
      }
    }
    assert FrameOk(s, s.stack[n]);
  }

  lemma CallSlotSets(s: State, slot: nat)
    requires WellFormed(s) && s.stack != []
    requires slot < |s.sets[s.stack[|s.stack| - 1].home]| && s.sets[s.stack[|s.stack| - 1].home][slot].Some?
    ensures
      var top := s.stack[|s.stack| - 1];
      var f := s.sets[top.home][slot].value;
      var t := CallSlot(s, slot);
      && t == Called(s, slot, f).(sets := t.sets)
      && SetsOk(t) && SetsEvolve(s, t)
      && (f.OnceWrapper? ==> Absent(t, f.serial))
      && |t.sets| == |s.sets| && (forall h :: 0 <= h < |s.sets| ==> |t.sets[h]| == |s.sets[h]|)
  {
    var top := s.stack[|s.stack| - 1];
    var f := s.sets[top.home][slot].value;
    var called := Called(s, slot, f);
    if f.OnceWrapper? {
      assert IsHoused(s.wrappers, top.home, s.sets[top.home][slot]);
      UnsubscribedEvolves(called, top.home, f);
      HomeIsOnlyPlace(called, CallSlot(s, slot), top.home, f);
    }
  }

  lemma CallSlotEffect(s: State, slot: nat)
    requires WellFormed(s) && s.stack != []
    requires
      var top := s.stack[|s.stack| - 1];
      top.next <= slot < |s.sets[top.home]| && s.sets[top.home][slot].Some?
    ensures Effect(s, CallSlot(s, slot))
  {
    var f := s.sets[s.stack[|s.stack| - 1].home][slot].value;
    var t := CallSlot(s, slot);
    CallSlotSets(s, slot);
    CalledFrames(s, slot, f);
    CalledLog(s, slot, f);
    LongerSetsOk(Called(s, slot, f), t);
    assert t.log[..|t.log| - 1] == s.log;
    assert IsCall(s, t, t.log[|t.log| - 1]);
  }

  lemma SameSetsEffect(s: State, t: State)
    requires SetsOk(s) && FramesOk(t) && LogOk(t)
    requires t.sets == s.sets && t.wrappers == s.wrappers && t.log == s.log
    requires s.emits <= t.emits && s.aborted <= t.aborted
    ensures Effect(s, t)
  {
  }

  /** Fewer emits in progress are in order too, in whatever phase they are. */
  lemma FewerFramesOk(s: State, t: State)
    requires FramesOk(s) && LogOk(s)
    requires t == s.(stack := t.stack, aborted := t.aborted) && |t.stack| <= |s.stack|
    requires forall j :: 0 <= j < |t.stack| ==> t.stack[j] == s.stack[j].(phase := t.stack[j].phase)
    ensures FramesOk(t) && LogOk(t)
  {
    forall j | 0 <= j < |t.stack|
      ensures FrameOk(t, t.stack[j])
    {
      assert FrameOk(s, s.stack[j]);
    }
  }

  lemma PoppedEffect(s: State)
    requires WellFormed(s) && s.stack != []
    ensures Effect(s, Popped(s))
  {
    FewerFramesOk(s, Popped(s));
    SameSetsEffect(s, Popped(s));
  }

  lemma LeftEffect(s: State)
    requires WellFormed(s) && s.stack != []
    ensures Effect(s, Left(s))
  {
    FewerFramesOk(s, Left(s));
    SameSetsEffect(s, Left(s));
  }

  lemma HandlingEffect(s: State)
    requires WellFormed(s) && s.stack != []
    ensures Effect(s, Handling(s))
  {
    FewerFramesOk(s, Handling(s));
    SameSetsEffect(s, Handling(s));
  }

  lemma ResumeEffect(s: State)
    requires WellFormed(s)
    ensures Effect(s, Resume(s))
  {
    if s.stack != [] {
      var top := s.stack[|s.stack| - 1];
      assert FrameOk(s, top);
      var slot := NextLive(s.sets[top.home], top.next);
      if slot < |s.sets[top.home]| {
        CallSlotEffect(s, slot);
      } else {
        PoppedEffect(s);
      }
    }
  }

  lemma ResumeKeepsInvariant(s: State)
    requires WellFormed(s)
    ensures WellFormed(Resume(s))
  {
    ResumeEffect(s);
  }

  lemma BegunOk(s: State, home: nat)
    requires WellFormed(s) && home < |s.sets|
    ensures WellFormed(Begun(s, home))
  {
    var t := Begun(s, home);
    forall j | 0 <= j < |t.stack|
      ensures FrameOk(t, t.stack[j])
    {
      assert j < |s.stack| ==> FrameOk(s, s.stack[j]);
    }
    assert forall i :: 0 <= i < |s.stack| ==> FrameOk(s, s.stack[i]);
  }

  lemma BeginEmitEffect(s: State, event: string)
    requires WellFormed(s)
    ensures Effect(s, BeginEmit(s, event))
  {
    if event in s.table {
      BegunOk(s, s.table[event]);
      ResumeEffect(Begun(s, s.table[event]));
    }
  }

  lemma EndedEffect(s: State, threw: bool)
    requires WellFormed(s)
    ensures Effect(s, Ended(s, threw))
  {
    if s.stack == [] {
      SameSetsEffect(s, s);
    } else if threw && s.stack[|s.stack| - 1].phase == InHandler {
      LeftEffect(s);
    } else if threw && s.hasHandler {
      HandlingEffect(s);
    } else {
      ResumeEffect(s);
    }
  }

  lemma SubscribeKeepsTable(s: State, event: string, f: Function)
    requires FramesOk(s)
    ensures
      var t := Subscribe(s, event, f);
      && t == s.(sets := t.sets, table := t.table)
      && forall e :: e in t.table ==> t.table[e] < |t.sets|
  {
  }

  lemma SubscribeEffect(s: State, event: string, f: Function)
    requires WellFormed(s) && f.Listener?
    ensures Effect(s, Subscribe(s, event, f))
  {
    SubscribeEvolves(s, event, f);
    SubscribeKeepsTable(s, event, f);
    LongerSetsOk(s, Subscribe(s, event, f));
  }

  lemma OnceSets(s: State, event: string, id: nat)
    requires SetsOk(s)
    ensures
      var t := Step(s, Once(event, id));
      && SetsOk(t) && SetsEvolve(s, t)
  {
    var u := s.(wrappers := s.wrappers + [Registration(HomeFor(s, event), id)]);
    MoreWrappersOk(s, Registration(HomeFor(s, event), id));
    SubscribeEvolves(u, event, OnceWrapper(|s.wrappers|));
  }

  lemma OnceEffect(s: State, event: string, id: nat)
    requires WellFormed(s)
    ensures Effect(s, Step(s, Once(event, id)))
  {
    var u := s.(wrappers := s.wrappers + [Registration(HomeFor(s, event), id)]);
    OnceSets(s, event, id);
    SubscribeKeepsTable(u, event, OnceWrapper(|s.wrappers|));
    LongerSetsOk(s, Step(s, Once(event, id)));
  }

  lemma MoreWrappersOk(s: State, added: Registration)
    requires SetsOk(s)
    ensures SetsOk(s.(wrappers := s.wrappers + [added]))
  {
    var t := s.(wrappers := s.wrappers + [added]);
    forall h, i | 0 <= h < |t.sets| && 0 <= i < |t.sets[h]|
      ensures IsHoused(t.wrappers, h, t.sets[h][i])
    {
      assert IsHoused(s.wrappers, h, s.sets[h][i]);
    }
  }

  lemma MoreWrappersKeepInvariant(s: State, added: Registration)
    requires WellFormed(s)
    ensures WellFormed(s.(wrappers := s.wrappers + [added]))
  {
    MoreWrappersOk(s, added);
    LongerSetsOk(s, s.(wrappers := s.wrappers + [added]));
  }

  lemma UnsubscribedEffect(s: State, home: nat, f: Function)
    requires WellFormed(s)
    ensures Effect(s, Unsubscribed(s, home, f))
  {
    UnsubscribedEvolves(s, home, f);
    LongerSetsOk(s, Unsubscribed(s, home, f));
  }

  lemma OnEffect(s: State, event: string, id: nat)
    requires WellFormed(s)
    ensures Effect(s, Step(s, On(event, id)))
  {
    SubscribeEffect(s, event, Listener(id));
  }

  lemma OffEffect(s: State, event: string, id: nat)
    requires WellFormed(s)
    ensures Effect(s, Step(s, Off(event, id)))
  {
    if event in s.table {
      UnsubscribedEffect(s, s.table[event], Listener(id));
    } else {
      SameSetsEffect(s, s);
    }
  }

  lemma UnsubscribeEffect(s: State, home: nat, f: Function)
    requires WellFormed(s)
    ensures Effect(s, Step(s, Unsubscribe(home, f)))
  {
    UnsubscribedEffect(s, home, f);
  }

  lemma EmitEffect(s: State, event: string)
    requires WellFormed(s)
    ensures Effect(s, Step(s, Emit(event)))
  {
    BeginEmitEffect(s, event);
  }

  lemma RemoveAllEffect(s: State, which: Option<string>)
    requires WellFormed(s)
    ensures Effect(s, Step(s, RemoveAll(which)))
  {
    LongerSetsOk(s, Step(s, RemoveAll(which)));
    SameSetsEffect(s, Step(s, RemoveAll(which)));
  }

  lemma SetHandlerEffect(s: State, present: bool)
    requires WellFormed(s)
    ensures Effect(s, Step(s, SetHandler(present)))
  {
    LongerSetsOk(s, Step(s, SetHandler(present)));
    SameSetsEffect(s, Step(s, SetHandler(present)));
  }

  /** Every step keeps the invariant and has only the effects listed. */
  lemma StepEffect(s: State, a: Action)
    requires WellFormed(s)
    ensures Effect(s, Step(s, a))
  {
    match a
    case On(event, id) => OnEffect(s, event, id);
    case Once(event, id) => OnceEffect(s, event, id);
    case Off(event, id) => OffEffect(s, event, id);
    case Unsubscribe(home, f) => UnsubscribeEffect(s, home, f);
    case RemoveAll(which) => RemoveAllEffect(s, which);
    case SetHandler(present) => SetHandlerEffect(s, present);
    case Emit(event) => EmitEffect(s, event);
    case Return => EndedEffect(s, false);
    case Throw => EndedEffect(s, true);
  }

  lemma StepKeepsInvariant(s: State, a: Action)
    requires WellFormed(s)
    ensures WellFormed(Step(s, a))
  {
    StepEffect(s, a);
  }

  lemma {:induction false} RunKeepsInvariant(s: State, actions: seq<Action>)
    requires WellFormed(s)
    ensures WellFormed(Run(s, actions))
    decreases |actions|
  {
    if actions != [] {
      StepEffect(s, actions[0]);
      RunKeepsInvariant(Step(s, actions[0]), actions[1..]);
    }
  }

  // ------------------------------------------------------------------- once

  /** How often a `once` registration has fired. */
  function Fires(log: seq<Call>, serial: nat): nat {
    if log == [] then 0
    else
      var n := |log| - 1;
      Fires(log[..n], serial) + if log[n].f == OnceWrapper(serial) then 1 else 0
  }

  /** Fired implies absent from every Set. */
  ghost predicate FiredOk(s: State, serial: nat) {
    || Fires(s.log, serial) == 0
    || (Fires(s.log, serial) == 1 && serial < |s.wrappers| && Absent(s, serial))
  }

  /** A wrapper that is in no Set is never added again. */
  lemma AbsentStays(s: State, t: State, serial: nat)
    requires Effect(s, t) && serial < |s.wrappers| && Absent(s, serial)
    ensures Absent(t, serial) && Fires(t.log, serial) == Fires(s.log, serial)
  {
    forall h, i | 0 <= h < |t.sets| && 0 <= i < |t.sets[h]|
      ensures t.sets[h][i] != Some(OnceWrapper(serial))
    {
      if h < |s.sets| && i < |s.sets[h]| {
        assert t.sets[h][i] == s.sets[h][i] || t.sets[h][i] == None;
      } else {
        assert IsNew(s, t.sets[h][i]);
      }
    }
  }

  lemma FiredOkStep(s: State, t: State, serial: nat)
    requires WellFormed(s) && Effect(s, t) && FiredOk(s, serial)
    ensures FiredOk(t, serial)
  {
    if Fires(s.log, serial) == 1 {
      AbsentStays(s, t, serial);
    } else if Fires(t.log, serial) != 0 {
      var c := t.log[|t.log| - 1];
      assert c.f == OnceWrapper(serial);
      assert IsHoused(s.wrappers, c.home, s.sets[c.home][c.slot]);
    }
  }

  lemma {:induction false} FiredOkRun(s: State, actions: seq<Action>, serial: nat)
    requires WellFormed(s) && FiredOk(s, serial)
    ensures FiredOk(Run(s, actions), serial)
    decreases |actions|
  {
    if actions != [] {
      StepEffect(s, actions[0]);
      FiredOkStep(s, Step(s, actions[0]), serial);
      FiredOkRun(Step(s, actions[0]), actions[1..], serial);
    }
  }

  /**
   * A listener registered with `once` runs at most once in every run: under
   * nested emits of its own event, `removeAllListeners` in the middle of an emit,
   * and any registration afterwards.
   */
  lemma OnceFiresAtMostOnce(actions: seq<Action>, serial: nat)
    ensures Fires(Run(INITIAL, actions).log, serial) <= 1
  {
    FiredOkRun(INITIAL, actions, serial);
  }

  lemma {:induction false} AbsentNeverFires(s: State, actions: seq<Action>, serial: nat)
    requires WellFormed(s) && serial < |s.wrappers| && Absent(s, serial)
    ensures Fires(Run(s, actions).log, serial) == Fires(s.log, serial)
    decreases |actions|
  {
    if actions != [] {
      StepEffect(s, actions[0]);
      AbsentStays(s, Step(s, actions[0]), serial);
      AbsentNeverFires(Step(s, actions[0]), actions[1..], serial);
    }
  }

  /** After the function that `once` returned was called, the listener never runs again. */
  lemma UnsubscribeCancelsOnce(s: State, serial: nat, actions: seq<Action>)
    requires WellFormed(s) && serial < |s.wrappers|
    ensures
      var unsubscribe := Unsubscribe(s.wrappers[serial].home, OnceWrapper(serial));
      Fires(Run(s, [unsubscribe] + actions).log, serial) == Fires(s.log, serial)
  {
    var home, f := s.wrappers[serial].home, OnceWrapper(serial);
    var t := Step(s, Unsubscribe(home, f));
    StepEffect(s, Unsubscribe(home, f));
    HomeIsOnlyPlace(s, t, home, f);
    UnsubscribedEvolves(s, home, f);
    AbsentNeverFires(t, actions, serial);
    assert ([Unsubscribe(home, f)] + actions)[1..] == actions;
  }

  lemma OffKeepsWrapper(s: State, event: string, id: nat, home: nat, slot: nat, serial: nat)
    requires WellFormed(s) && home < |s.sets| && slot < |s.sets[home]|
    requires s.sets[home][slot] == Some(OnceWrapper(serial))
    ensures
      var t := Step(s, Off(event, id));
      && t == s.(sets := t.sets)
      && home < |t.sets| && slot < |t.sets[home]| && t.sets[home][slot] == Some(OnceWrapper(serial))
  {
    if event in s.table {
      RemovedMeaning(s.sets[s.table[event]], Listener(id));
    }
  }

  /** `off` does not cancel a `once`, however often and with whatever listeners it is called. */
  lemma {:induction false} OffKeepsOnce(s: State, offs: seq<Action>, home: nat, slot: nat, serial: nat)
    requires WellFormed(s) && home < |s.sets| && slot < |s.sets[home]|
    requires s.sets[home][slot] == Some(OnceWrapper(serial))
    requires forall k :: 0 <= k < |offs| ==> offs[k].Off?
    ensures
      var t := Run(s, offs);
      && WellFormed(t) && t == s.(sets := t.sets)
      && home < |t.sets| && slot < |t.sets[home]| && t.sets[home][slot] == Some(OnceWrapper(serial))
    decreases |offs|
  {
    if offs != [] {
      OffKeepsWrapper(s, offs[0].event, offs[0].id, home, slot, serial);
      StepEffect(s, offs[0]);
      OffKeepsOnce(Step(s, offs[0]), offs[1..], home, slot, serial);
    }
  }
}
