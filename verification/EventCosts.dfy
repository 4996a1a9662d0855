/** How many listeners an emit calls, and when emits come to an end. */
module EventCosts {
  import opened Wrappers
  import opened Events
  import opened EventRuns

  // ------------------------------------------------------ listenerCount

  lemma SizeFrom(slots: Slots, i: nat)
    requires i <= |slots|
    ensures
      var k := NextLive(slots, i);
      Size(slots[i..]) == if k == |slots| then 0 else 1 + Size(slots[k + 1..])
    decreases |slots| - i
  {
    if i < |slots| {
      assert slots[i..][1..] == slots[i + 1..];
      if slots[i] == None {
        SizeFrom(slots, i + 1);
      }
    }
  }

  function Returns(n: nat): seq<Action> {
    seq(n, _ => Return)
  }

  lemma ReturnsTail(n: nat)
    requires n > 0
    ensures Returns(n)[0] == Return && Returns(n)[1..] == Returns(n - 1)
  {
  }

  /** The listeners that the innermost emit has still to call. */
  function Remaining(s: State): nat
    requires WellFormed(s) && s.stack != []
  {
    FrameInBounds(s);
    var top := s.stack[|s.stack| - 1];
    Size(s.sets[top.home][top.next..])
  }

  lemma FrameInBounds(s: State)
    requires WellFormed(s) && s.stack != []
    ensures FrameOk(s, s.stack[|s.stack| - 1])
  {
  }

  lemma CallSlotRest(s: State, slot: nat)
    requires WellFormed(s) && s.stack != []
    requires
      var top := s.stack[|s.stack| - 1];
      top.next <= slot < |s.sets[top.home]| && s.sets[top.home][slot].Some?
    ensures
      var home := s.stack[|s.stack| - 1].home;
      var t := CallSlot(s, slot);
      && home < |t.sets| && |t.sets[home]| == |s.sets[home]|
      && t.sets[home][slot + 1..] == s.sets[home][slot + 1..]
  {
    var top := s.stack[|s.stack| - 1];
    var f := s.sets[top.home][slot].value;
    var t := CallSlot(s, slot);
    CallSlotSets(s, slot);
    if f.OnceWrapper? {
      assert IsHoused(s.wrappers, top.home, s.sets[top.home][slot]);
      RemovedMeaning(s.sets[top.home], f);
      assert t.sets[top.home] == Removed(s.sets[top.home], f);
    }
    forall i | slot + 1 <= i < |s.sets[top.home]|
      ensures t.sets[top.home][i] == s.sets[top.home][i]
    {
      assert s.sets[top.home][slot] != s.sets[top.home][i];
    }
  }

  lemma CallRemaining(s: State, slot: nat)
    requires WellFormed(s) && s.stack != []
    requires
      var top := s.stack[|s.stack| - 1];
      top.next <= slot < |s.sets[top.home]| && s.sets[top.home][slot].Some?
    ensures
      var t := CallSlot(s, slot);
      && WellFormed(t)
      && |t.stack| == |s.stack|
      && t.stack[..|s.stack| - 1] == s.stack[..|s.stack| - 1]
      && Remaining(t) == Size(s.sets[s.stack[|s.stack| - 1].home][slot + 1..])
      && |t.log| == |s.log| + 1
  {
    CallSlotEffect(s, slot);
    CallSlotSets(s, slot);
    CallSlotRest(s, slot);
  }

  /** `t` has called one more of the remaining listeners of the innermost emit. */
  ghost predicate CalledOne(s: State, t: State) {
    && WellFormed(s) && s.stack != []
    && WellFormed(t)
    && |t.stack| == |s.stack|
    && t.stack[..|s.stack| - 1] == s.stack[..|s.stack| - 1]
    && Remaining(t) == Remaining(s) - 1
    && |t.log| == |s.log| + 1
  }

  /** Going on calls one of the remaining listeners, or ends the emit if there is none. */
  lemma ResumeRemaining(s: State)
    requires WellFormed(s) && s.stack != []
    ensures Remaining(s) == 0 ==> Resume(s) == Popped(s)
    ensures Remaining(s) > 0 ==> CalledOne(s, Resume(s))
  {
    FrameInBounds(s);
    NextIsRemaining(s);
    ResumeCalls(s);
    var top := s.stack[|s.stack| - 1];
    var slot := NextLive(s.sets[top.home], top.next);
    if slot < |s.sets[top.home]| {
      CallRemaining(s, slot);
    }
  }

  lemma NextIsRemaining(s: State)
    requires WellFormed(s) && s.stack != [] && FrameOk(s, s.stack[|s.stack| - 1])
    ensures
      var top := s.stack[|s.stack| - 1];
      var slots := s.sets[top.home];
      var slot := NextLive(slots, top.next);
      Remaining(s) == if slot == |slots| then 0 else 1 + Size(slots[slot + 1..])
  {
    var top := s.stack[|s.stack| - 1];
    SizeFrom(s.sets[top.home], top.next);
  }

  lemma ResumeCalls(s: State)
    requires s.stack != [] && FrameOk(s, s.stack[|s.stack| - 1])
    ensures
      var top := s.stack[|s.stack| - 1];
      var slot := NextLive(s.sets[top.home], top.next);
      Resume(s) == if slot < |s.sets[top.home]| then CallSlot(s, slot) else Popped(s)
  {
  }

  lemma RunReturn(s: State, n: nat)
    requires s.stack != []
    ensures Run(s, Returns(n + 1)) == Run(Resume(s), Returns(n))
  {
    ReturnsTail(n + 1);
  }

  lemma {:induction false} QuietReturns(s: State, n: nat)
    requires WellFormed(s) && s.stack != [] && n == Remaining(s)
    ensures
      var t := Run(s, Returns(n + 1));
      && t.stack == s.stack[..|s.stack| - 1]
      && |t.log| == |s.log| + n
    decreases n
  {
    RunReturn(s, n);
    ResumeRemaining(s);
    if n > 0 {
      QuietReturns(Resume(s), n - 1);
    } else {
      assert Returns(0) == [];
    }
  }

  /**
   * `listenerCount` is the number of calls of an emit whose listeners do nothing
   * but return: it calls that many, and is then over.
   */
  lemma QuietEmitCallsListenerCount(s: State, event: string)
    requires WellFormed(s)
    ensures
      var t := Run(s, [Emit(event)] + Returns(ListenerCount(s, event)));
      && t.stack == s.stack
      && |t.log| == |s.log| + ListenerCount(s, event)
  {
    var n := ListenerCount(s, event);
    assert ([Emit(event)] + Returns(n))[1..] == Returns(n);
    if event in s.table {
      var u := Begun(s, s.table[event]);
      BegunOk(s, s.table[event]);
      assert u.sets[s.table[event]][0..] == u.sets[s.table[event]];
      assert u.stack[..|s.stack|] == s.stack;
      RunReturn(u, n);
      QuietReturns(u, n);
    } else {
      assert Returns(0) == [];
    }
  }

  lemma {:induction false} SizeOfAdded(slots: Slots, f: Function)
    ensures Size(slots + [Some(f)]) == Size(slots) + 1
  {
    if slots == [] {
      assert slots + [Some(f)] == [Some(f)];
    } else {
      assert (slots + [Some(f)])[1..] == slots[1..] + [Some(f)];
      SizeOfAdded(slots[1..], f);
    }
  }

  lemma {:induction false} SizeOfRemoved(slots: Slots, f: Function)
    ensures Size(Removed(slots, f)) == Size(slots) - if Find(slots, f) < |slots| then 1 else 0
  {
    if slots != [] && slots[0] != Some(f) {
      SizeOfRemoved(slots[1..], f);
      if Find(slots, f) < |slots| {
        assert Removed(slots, f)[1..] == Removed(slots[1..], f);
      }
    }
  }

  /** The Set of the event holds the function. */
  predicate IsRegistered(s: State, event: string, f: Function) {
    event in s.table && s.table[event] < |s.sets| && Some(f) in s.sets[s.table[event]]
  }

  /** Registering counts once however often it is done; `off` undoes it. */
  lemma OnThenOff(s: State, event: string, id: nat)
    requires WellFormed(s)
    ensures
      var on := Step(s, On(event, id));
      var twice := Step(on, On(event, id));
      var off := Step(on, Off(event, id));
      && ListenerCount(on, event) == ListenerCount(s, event) + (if IsRegistered(s, event, Listener(id)) then 0 else 1)
      && twice == on
      && ListenerCount(off, event) == ListenerCount(on, event) - 1
  {
    var f := Listener(id);
    var home := HomeFor(s, event);
    var on := Step(s, On(event, id));
    if home < |s.sets| {
      SizeOfAdded(s.sets[home], f);
      AddedMeaning(s.sets[home], f);
      assert on.sets[home][Find(s.sets[home], f)] == Some(f);
      assert IsRegistered(s, event, f) <==> Find(s.sets[home], f) < |s.sets[home]|;
    } else {
      SizeOfAdded([], f);
      assert [] + [Some(f)] == [Some(f)];
      assert on.sets[home][0] == Some(f);
    }
    AddedIsFound(on.sets[home], f);
    SizeOfRemoved(on.sets[home], f);
    assert on.sets[home := on.sets[home]] == on.sets;
  }

  lemma AddedIsFound(slots: Slots, f: Function)
    requires exists i :: 0 <= i < |slots| && slots[i] == Some(f)
    ensures Find(slots, f) < |slots|
  {
  }

  // ------------------------------------------------------------ termination

  /** What an emit may still do: two endings for each listener ahead, and its current one. */
  function FrameRank(sets: seq<Slots>, frame: Frame): nat {
    var ahead := if frame.home < |sets| && frame.next <= |sets[frame.home]|
                 then Size(sets[frame.home][frame.next..]) else 0;
    2 * ahead + if frame.phase == InListener then 2 else 1
  }

  function Rank(sets: seq<Slots>, stack: seq<Frame>): nat {
    if stack == [] then 0
    else
      var n := |stack| - 1;
      Rank(sets, stack[..n]) + FrameRank(sets, stack[n])
  }

  /** Some slots were emptied, and nothing else changed. */
  ghost predicate AreEmptied(slots: Slots, slots': Slots) {
    |slots'| == |slots| && forall i :: 0 <= i < |slots| ==> slots'[i] == slots[i] || slots'[i] == None
  }

  ghost predicate Shrink(sets: seq<Slots>, sets': seq<Slots>) {
    |sets'| == |sets| && forall h :: 0 <= h < |sets| ==> AreEmptied(sets[h], sets'[h])
  }

  lemma {:induction false} SizeShrinks(slots: Slots, slots': Slots)
    requires AreEmptied(slots, slots')
    ensures Size(slots') <= Size(slots)
  {
    if slots != [] {
      assert forall i :: 0 <= i < |slots[1..]| ==> slots[1..][i] == slots[i + 1] && slots'[1..][i] == slots'[i + 1];
      SizeShrinks(slots[1..], slots'[1..]);
    }
  }

  lemma FrameRankShrinks(sets: seq<Slots>, sets': seq<Slots>, frame: Frame)
    requires Shrink(sets, sets')
    ensures FrameRank(sets', frame) <= FrameRank(sets, frame)
  {
    if frame.home < |sets| && frame.next <= |sets[frame.home]| {
      assert AreEmptied(sets[frame.home], sets'[frame.home]);
      SizeShrinks(sets[frame.home][frame.next..], sets'[frame.home][frame.next..]);
    }
  }

  lemma {:induction false} RankShrinks(sets: seq<Slots>, sets': seq<Slots>, stack: seq<Frame>)
    requires Shrink(sets, sets')
    ensures Rank(sets', stack) <= Rank(sets, stack)
  {
    if stack != [] {
      RankShrinks(sets, sets', stack[..|stack| - 1]);
      FrameRankShrinks(sets, sets', stack[|stack| - 1]);
    }
  }

  lemma RankOfTop(sets: seq<Slots>, sets': seq<Slots>, stack: seq<Frame>, stack': seq<Frame>)
    requires Shrink(sets, sets')
    requires |stack'| == |stack| > 0 && stack'[..|stack| - 1] == stack[..|stack| - 1]
    ensures Rank(sets', stack') - Rank(sets, stack)
         <= FrameRank(sets', stack'[|stack| - 1]) - FrameRank(sets, stack[|stack| - 1])
  {
    RankShrinks(sets, sets', stack[..|stack| - 1]);
  }

  lemma EvolvedShrink(s: State, t: State)
    requires SetsEvolve(s, t) && |t.sets| == |s.sets|
    requires forall h :: 0 <= h < |s.sets| ==> |t.sets[h]| == |s.sets[h]|
    ensures Shrink(s.sets, t.sets)
  {
  }

  lemma ResumeShrinks(s: State)
    requires WellFormed(s)
    ensures Shrink(s.sets, Resume(s).sets)
  {
    if s.stack != [] {
      FrameInBounds(s);
      var top := s.stack[|s.stack| - 1];
      var slot := NextLive(s.sets[top.home], top.next);
      if slot < |s.sets[top.home]| {
        CallSlotSets(s, slot);
        EvolvedShrink(s, CallSlot(s, slot));
      }
    }
  }

  lemma TopRank(s: State)
    requires WellFormed(s) && s.stack != []
    ensures
      var top := s.stack[|s.stack| - 1];
      FrameRank(s.sets, top) == 2 * Remaining(s) + if top.phase == InListener then 2 else 1
  {
    FrameInBounds(s);
  }

  lemma ResumeRank(s: State)
    requires WellFormed(s) && s.stack != []
    ensures
      var spare := if s.stack[|s.stack| - 1].phase == InListener then 2 else 1;
      Rank(Resume(s).sets, Resume(s).stack) <= Rank(s.sets, s.stack) - spare
  {
    ResumeShrinks(s);
    ResumeRemaining(s);
    TopRank(s);
    if Remaining(s) > 0 {
      TopRank(Resume(s));
      RankOfTop(s.sets, Resume(s).sets, s.stack, Resume(s).stack);
    }
  }

  lemma EndedRank(s: State, threw: bool)
    requires WellFormed(s) && s.stack != []
    ensures Shrink(s.sets, Ended(s, threw).sets)
    ensures Rank(Ended(s, threw).sets, Ended(s, threw).stack) < Rank(s.sets, s.stack)
  {
    ResumeShrinks(s);
    ResumeRank(s);
    if threw && s.stack[|s.stack| - 1].phase == InListener && s.hasHandler {
      RankOfTop(s.sets, s.sets, s.stack, Ended(s, threw).stack);
    }
  }

  /** A listener or error handler ends: the emitter's loop runs. */
  predicate EndsOne(s: State, a: Action) {
    (a.Return? || a.Throw?) && s.stack != []
  }

  lemma UnsubscribedRank(s: State, home: nat, f: Function)
    requires WellFormed(s)
    ensures
      var t := Unsubscribed(s, home, f);
      Shrink(s.sets, t.sets) && Rank(t.sets, t.stack) <= Rank(s.sets, s.stack)
  {
    UnsubscribedEvolves(s, home, f);
    EvolvedShrink(s, Unsubscribed(s, home, f));
    RankShrinks(s.sets, Unsubscribed(s, home, f).sets, s.stack);
  }

  /** How many listeners and handlers end in a run. */
  function Endings(s: State, actions: seq<Action>): nat
    decreases |actions|
  {
    if actions == [] then 0
    else (if EndsOne(s, actions[0]) then 1 else 0) + Endings(Step(s, actions[0]), actions[1..])
  }

  /** How many of the emits in progress iterate the Set. */
  function Iterating(stack: seq<Frame>, home: nat): nat {
    if stack == [] then 0
    else
      var n := |stack| - 1;
      Iterating(stack[..n], home) + if stack[n].home == home then 1 else 0
  }

  /** What a step can add: a registration is ahead of every emit on its Set, an emit has its Set ahead. */
  function Cost(s: State, a: Action): nat {
    match a
    case On(event, _) => 2 * Iterating(s.stack, HomeFor(s, event))
    case Once(event, _) => 2 * Iterating(s.stack, HomeFor(s, event))
    case Emit(event) => 2 * ListenerCount(s, event)
    case _ => 0
  }

  function RunCost(s: State, actions: seq<Action>): nat
    decreases |actions|
  {
    if actions == [] then 0 else Cost(s, actions[0]) + RunCost(Step(s, actions[0]), actions[1..])
  }

  lemma FrameRankOfAdded(sets: seq<Slots>, home: nat, f: Function, frame: Frame)
    requires home < |sets|
    ensures FrameRank(sets[home := Added(sets[home], f)], frame)
         <= FrameRank(sets, frame) + if frame.home == home then 2 else 0
  {
    AddedMeaning(sets[home], f);
    if frame.home == home {
      if frame.next <= |sets[home]| {
        SizeOfAdded(sets[home][frame.next..], f);
        assert (sets[home] + [Some(f)])[frame.next..] == sets[home][frame.next..] + [Some(f)];
      } else if frame.next == |Added(sets[home], f)| {
        assert Added(sets[home], f)[frame.next..] == [];
      }
    }
  }

  lemma {:induction false} RankOfAdded(sets: seq<Slots>, home: nat, f: Function, stack: seq<Frame>)
    requires home < |sets|
    ensures Rank(sets[home := Added(sets[home], f)], stack) <= Rank(sets, stack) + 2 * Iterating(stack, home)
  {
    if stack != [] {
      RankOfAdded(sets, home, f, stack[..|stack| - 1]);
      FrameRankOfAdded(sets, home, f, stack[|stack| - 1]);
    }
  }

  /** A new Set is behind no emit in progress. */
  lemma {:induction false} RankOfNewSet(sets: seq<Slots>, slots: Slots, stack: seq<Frame>)
    requires forall j :: 0 <= j < |stack| ==> stack[j].home < |sets|
    ensures Rank(sets + [slots], stack) == Rank(sets, stack)
  {
    if stack != [] {
      RankOfNewSet(sets, slots, stack[..|stack| - 1]);
    }
  }

  lemma SubscribeRank(s: State, event: string, f: Function)
    requires FramesOk(s)
    ensures Rank(Subscribe(s, event, f).sets, s.stack)
         <= Rank(s.sets, s.stack) + 2 * Iterating(s.stack, HomeFor(s, event))
  {
    if event in s.table {
      RankOfAdded(s.sets, s.table[event], f, s.stack);
    } else {
      assert forall j :: 0 <= j < |s.stack| ==> FrameOk(s, s.stack[j]);
      RankOfNewSet(s.sets, [Some(f)], s.stack);
    }
  }

  lemma EmitRank(s: State, event: string)
    requires WellFormed(s)
    ensures Rank(BeginEmit(s, event).sets, BeginEmit(s, event).stack)
         <= Rank(s.sets, s.stack) + 2 * ListenerCount(s, event)
  {
    if event in s.table {
      var u := Begun(s, s.table[event]);
      BegunOk(s, s.table[event]);
      assert u.stack[..|s.stack|] == s.stack;
      assert u.sets[s.table[event]][0..] == u.sets[s.table[event]];
      TopRank(u);
      ResumeRank(u);
    }
  }

  lemma OnceRank(s: State, event: string, id: nat)
    requires WellFormed(s)
    ensures
      var t := Step(s, Once(event, id));
      Rank(t.sets, t.stack) <= Rank(s.sets, s.stack) + 2 * Iterating(s.stack, HomeFor(s, event))
  {
    var u := s.(wrappers := s.wrappers + [Registration(HomeFor(s, event), id)]);
    MoreWrappersKeepInvariant(s, Registration(HomeFor(s, event), id));
    SubscribeRank(u, event, OnceWrapper(|s.wrappers|));
  }

  lemma OffRank(s: State, event: string, id: nat)
    requires WellFormed(s)
    ensures
      var t := Step(s, Off(event, id));
      Shrink(s.sets, t.sets) && Rank(t.sets, t.stack) <= Rank(s.sets, s.stack)
  {
    if event in s.table {
      UnsubscribedRank(s, s.table[event], Listener(id));
    }
  }

  lemma EndingRank(s: State, threw: bool)
    requires WellFormed(s)
    ensures Rank(Ended(s, threw).sets, Ended(s, threw).stack) + (if s.stack != [] then 1 else 0)
         <= Rank(s.sets, s.stack)
  {
    if s.stack != [] {
      EndedRank(s, threw);
    }
  }

  lemma StepCost(s: State, a: Action)
    requires WellFormed(s)
    ensures
      Rank(Step(s, a).sets, Step(s, a).stack) + (if EndsOne(s, a) then 1 else 0)
        <= Rank(s.sets, s.stack) + Cost(s, a)
  {
    match a
    case On(event, id) => SubscribeRank(s, event, Listener(id));
    case Once(event, id) => OnceRank(s, event, id);
    case Off(event, id) => OffRank(s, event, id);
    case Unsubscribe(home, f) => UnsubscribedRank(s, home, f);
    case Emit(event) => EmitRank(s, event);
    case Return => EndingRank(s, false);
    case Throw => EndingRank(s, true);
    case RemoveAll(_) =>
    case SetHandler(_) =>
  }

  /**
   * In every run the endings of listeners and handlers are bounded by the
   * listeners ahead of the emits in progress, twice the listeners of each further
   * emit, and two for each emit in progress on the Set of each registration.
   */
  lemma {:induction false} EndingsAreBounded(s: State, actions: seq<Action>)
    requires WellFormed(s)
    ensures Endings(s, actions) + Rank(Run(s, actions).sets, Run(s, actions).stack)
         <= Rank(s.sets, s.stack) + RunCost(s, actions)
    decreases |actions|
  {
    if actions != [] {
      StepEffect(s, actions[0]);
      StepCost(s, actions[0]);
      EndingsAreBounded(Step(s, actions[0]), actions[1..]);
    }
  }

  // -------------------------------------------------- without registrations

  predicate Registers(a: Action) {
    a.On? || a.Once?
  }

  /** No Set holds more than `bound` listeners. */
  ghost predicate AreSmall(sets: seq<Slots>, bound: nat) {
    forall h :: 0 <= h < |sets| ==> Size(sets[h]) <= bound
  }

  lemma SmallStaysSmall(sets: seq<Slots>, sets': seq<Slots>, bound: nat)
    requires AreSmall(sets, bound) && Shrink(sets, sets')
    ensures AreSmall(sets', bound)
  {
    forall h | 0 <= h < |sets'|
      ensures Size(sets'[h]) <= bound
    {
      assert AreEmptied(sets[h], sets'[h]);
      SizeShrinks(sets[h], sets'[h]);
    }
  }

  lemma StepShrinks(s: State, a: Action)
    requires WellFormed(s) && !Registers(a)
    ensures Shrink(s.sets, Step(s, a).sets)
  {
    match a
    case Emit(event) =>
      if event in s.table {
        BegunOk(s, s.table[event]);
        ResumeShrinks(Begun(s, s.table[event]));
      }
    case Off(event, id) => OffRank(s, event, id);
    case Unsubscribe(home, f) => UnsubscribedRank(s, home, f);
    case _ => ResumeShrinks(s);
  }

  /** `cost` for each emit that a run begins. */
  function EmitsCost(actions: seq<Action>, cost: nat): nat {
    if actions == [] then 0 else (if actions[0].Emit? then cost else 0) + EmitsCost(actions[1..], cost)
  }

  lemma {:induction false} CostWithoutRegistrations(s: State, actions: seq<Action>, bound: nat)
    requires WellFormed(s) && AreSmall(s.sets, bound)
    requires forall k :: 0 <= k < |actions| ==> !Registers(actions[k])
    ensures RunCost(s, actions) <= EmitsCost(actions, 2 * bound)
    decreases |actions|
  {
    if actions != [] {
      StepEffect(s, actions[0]);
      StepShrinks(s, actions[0]);
      SmallStaysSmall(s.sets, Step(s, actions[0]).sets, bound);
      CostWithoutRegistrations(Step(s, actions[0]), actions[1..], bound);
    }
  }

  /**
   * If nothing is registered meanwhile, emits come to an end: the endings of
   * listeners and handlers are bounded by the listeners ahead of the emits in
   * progress, and each further emit adds at most twice the size of its Set. So
   * with no further emit the loops stop after `Rank` endings at the latest.
   */
  lemma EmitsTerminate(s: State, actions: seq<Action>, bound: nat)
    requires WellFormed(s) && AreSmall(s.sets, bound)
    requires forall k :: 0 <= k < |actions| ==> !Registers(actions[k])
    ensures Endings(s, actions) + Rank(Run(s, actions).sets, Run(s, actions).stack)
         <= Rank(s.sets, s.stack) + EmitsCost(actions, 2 * bound)
  {
    EndingsAreBounded(s, actions);
    CostWithoutRegistrations(s, actions, bound);
  }

  // ------------------------------------- emits that do not come to an end

  function Emits(event: string, n: nat): seq<Action> {
    seq(n, _ => Emit(event))
  }

  /**
   * Even without registrations an emit need not end: a listener that emits its
   * own event nests to any depth.
   */
  lemma {:induction false} SelfEmitNests(s: State, event: string, n: nat)
    requires event in s.table && s.table[event] < |s.sets|
    requires s.sets[s.table[event]] == [Some(Listener(0))]
    ensures |Run(s, Emits(event, n)).stack| == |s.stack| + n
    decreases n
  {
    if n > 0 {
      assert Emits(event, n)[1..] == Emits(event, n - 1);
      SelfEmitNests(Step(s, Emit(event)), event, n - 1);
    }
  }

  /** `n` rounds of a listener that registers a new function and returns. */
  function Growing(event: string, from: nat, n: nat): seq<Action>
    decreases n
  {
    if n == 0 then [] else [On(event, from), Return] + Growing(event, from + 1, n - 1)
  }

  function FirstListeners(n: nat): Slots {
    seq(n, i requires 0 <= i < n => Some(Listener(i)))
  }

  lemma FirstListenersGrow(n: nat)
    ensures
      var slots := FirstListeners(n);
      && Added(slots, Listener(n)) == FirstListeners(n + 1)
      && NextLive(FirstListeners(n + 1), n) == n
  {
  }

  /** A listener that registers another one each time keeps its emit going for ever. */
  lemma {:induction false} GrowingNeverEnds(s: State, event: string, from: nat, n: nat)
    requires event in s.table && s.table[event] < |s.sets|
    requires s.sets[s.table[event]] == FirstListeners(from)
    requires |s.stack| == 1 && s.stack[0].home == s.table[event] && s.stack[0].next == from
    ensures |Run(s, Growing(event, from, n)).stack| == 1
    ensures |Run(s, Growing(event, from, n)).log| == |s.log| + n
    decreases n
  {
    if n > 0 {
      var actions := Growing(event, from, n);
      var on := Step(s, On(event, from));
      FirstListenersGrow(from);
      assert actions[1..][1..] == Growing(event, from + 1, n - 1);
      assert actions[0] == On(event, from) && actions[1..][0] == Return;
      GrowingNeverEnds(Step(on, Return), event, from + 1, n - 1);
    }
  }

  /** Both happen from a new emitter with one listener, for every `n`. */
  lemma EmitNeedNotEnd(event: string, n: nat)
    ensures |Run(INITIAL, [On(event, 0)] + Emits(event, n)).stack| == n
    ensures
      var t := Run(INITIAL, [On(event, 0), Emit(event)] + Growing(event, 1, n));
      |t.stack| == 1 && |t.log| == n + 1
  {
    var s := Step(INITIAL, On(event, 0));
    assert ([On(event, 0)] + Emits(event, n))[1..] == Emits(event, n);
    SelfEmitNests(s, event, n);
    var t := Step(s, Emit(event));
    var actions := [On(event, 0), Emit(event)] + Growing(event, 1, n);
    assert actions[1..][1..] == Growing(event, 1, n);
    assert actions[1..][0] == Emit(event);
    assert t.sets[0] == FirstListeners(1);
    GrowingNeverEnds(t, event, 1, n);
  }
}
