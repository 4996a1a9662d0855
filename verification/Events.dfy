/**
 * `SmartAccountEventEmitter`: listeners run while the Set they are in is being
 * iterated, and may register, remove and emit again.
 *
 * A JavaScript Set is a list of slots in insertion order (ECMA-262 section
 * 24.2): deleting empties a slot, adding appends one, and an iterator is an index
 * that skips empty slots and sees slots appended behind it.
 */
module Events {
  import opened Wrappers

  /** What a Set can hold: a caller's function, or the wrapper made by one call of `once`. */
  datatype Function = Listener(id: nat) | OnceWrapper(serial: nat)

  type Slots = seq<Option<Function>>

  /** What a `once` wrapper captures: the Set it was added to and the wrapped function. */
  datatype Registration = Registration(home: nat, inner: nat)

  datatype Phase = InListener | InHandler

  /** An `emit` in progress: its Set, the next slot to look at, and which code it waits for. */
  datatype Frame = Frame(id: nat, home: nat, next: nat, phase: Phase)

  /**
   * History: the emit `frame` called `f`, found in slot `slot` of the Set `home`,
   * and with it the caller's function `ran`.
   */
  datatype Call = Call(frame: nat, home: nat, slot: nat, f: Function, ran: Option<nat>)

  /**
   * Every Set ever made (`sets`), the `listeners` Map into them, and the emits in
   * progress, the innermost last. `emits`, `log` and `aborted` are history: how
   * many emits began, what they called, and which of them were left because the
   * error handler threw.
   */
  datatype State = State(
    sets: seq<Slots>, table: map<string, nat>, wrappers: seq<Registration>, hasHandler: bool,
    stack: seq<Frame>, emits: nat, log: seq<Call>, aborted: set<nat>)

  const INITIAL := State([], map[], [], true, [], 0, [], {})

  // ------------------------------------------------------------------- Sets

  function Find(slots: Slots, f: Function): (i: nat)
    ensures i <= |slots|
    ensures i < |slots| ==> slots[i] == Some(f)
    ensures forall j :: 0 <= j < i ==> slots[j] != Some(f)
  {
    if slots == [] || slots[0] == Some(f) then 0 else 1 + Find(slots[1..], f)
  }

  /** `set.add(f)`. */
  function Added(slots: Slots, f: Function): Slots {
    if Find(slots, f) < |slots| then slots else slots + [Some(f)]
  }

  /** `set.delete(f)`. */
  function Removed(slots: Slots, f: Function): Slots {
    var i := Find(slots, f);
    if i < |slots| then slots[i := None] else slots
  }

  /** The first occupied slot at or behind `i`, the one the iterator visits next. */
  function NextLive(slots: Slots, i: nat): (k: nat)
    requires i <= |slots|
    ensures i <= k <= |slots|
    ensures forall j :: i <= j < k ==> slots[j] == None
    ensures k < |slots| ==> slots[k].Some?
    decreases |slots| - i
  {
    if i == |slots| || slots[i].Some? then i else NextLive(slots, i + 1)
  }

  /** `set.size`. */
  function Size(slots: Slots): nat {
    if slots == [] then 0 else (if slots[0].Some? then 1 else 0) + Size(slots[1..])
  }

  // ------------------------------------------------------------- operations

  /**
   * What the program does next. Code outside the emitter runs at the top level or
   * in the innermost listener or error handler; `Return` and `Throw` end that
   * listener or handler. `Unsubscribe` calls a function that `on` or `once`
   * returned, which captured a Set and what was added to it.
   */
  datatype Action =
    | On(event: string, id: nat)
    | Once(event: string, id: nat)
    | Off(event: string, id: nat)
    | Unsubscribe(home: nat, f: Function)
    | RemoveAll(which: Option<string>)
    | SetHandler(present: bool)
    | Emit(event: string)
    | Return
    | Throw

  function Subscribe(s: State, event: string, f: Function): State {
    if event in s.table && s.table[event] < |s.sets| then
      var home := s.table[event];
      s.(sets := s.sets[home := Added(s.sets[home], f)])
    else
      s.(sets := s.sets + [[Some(f)]], table := s.table[event := |s.sets|])
  }

  function Unsubscribed(s: State, home: nat, f: Function): State {
    if home < |s.sets| then s.(sets := s.sets[home := Removed(s.sets[home], f)]) else s
  }

  /** The Set that `on(event, ...)` adds to. */
  function HomeFor(s: State, event: string): nat {
    if event in s.table && s.table[event] < |s.sets| then s.table[event] else |s.sets|
  }

  /** The caller's function that runs when `f` is called. */
  function Runs(wrappers: seq<Registration>, f: Function): Option<nat> {
    match f
    case Listener(id) => Some(id)
    case OnceWrapper(serial) => if serial < |wrappers| then Some(wrappers[serial].inner) else None
  }

  /** The innermost emit moved behind `slot` and is waiting for what it called there. */
  function Called(s: State, slot: nat, f: Function): State
    requires s.stack != []
  {
    var n := |s.stack| - 1;
    var top := s.stack[n];
    s.(stack := s.stack[n := top.(next := slot + 1, phase := InListener)],
       log := s.log + [Call(top.id, top.home, slot, f, Runs(s.wrappers, f))])
  }

  /** The innermost emit calls the function in `slot`; a `once` wrapper first unsubscribes itself. */
  function CallSlot(s: State, slot: nat): State
    requires s.stack != [] && s.stack[|s.stack| - 1].home < |s.sets|
    requires slot < |s.sets[s.stack[|s.stack| - 1].home]|
    requires s.sets[s.stack[|s.stack| - 1].home][slot].Some?
  {
    var f := s.sets[s.stack[|s.stack| - 1].home][slot].value;
    var called := Called(s, slot, f);
    if f.OnceWrapper? && f.serial < |s.wrappers|
    then Unsubscribed(called, s.wrappers[f.serial].home, f)
    else called
  }

  /** The innermost emit is over. */
  function Popped(s: State): State
    requires s.stack != []
  {
    s.(stack := s.stack[..|s.stack| - 1])
  }

  /** The innermost emit is left because the error handler threw. */
  function Left(s: State): State
    requires s.stack != []
  {
    Popped(s).(aborted := s.aborted + {s.stack[|s.stack| - 1].id})
  }

  /** The innermost emit runs the error handler. */
  function Handling(s: State): State
    requires s.stack != []
  {
    var n := |s.stack| - 1;
    s.(stack := s.stack[n := s.stack[n].(phase := InHandler)])
  }

  /** The innermost emit goes on with its loop: it calls the next listener or is done. */
  function Resume(s: State): State {
    var n := |s.stack| - 1;
    if s.stack == [] || s.stack[n].home >= |s.sets| || s.stack[n].next > |s.sets[s.stack[n].home]| then s
    else
      var slots := s.sets[s.stack[n].home];
      var slot := NextLive(slots, s.stack[n].next);
      if slot == |slots| then Popped(s) else CallSlot(s, slot)
  }

  /** An emit has begun and has not looked at any slot. */
  function Begun(s: State, home: nat): State {
    s.(stack := s.stack + [Frame(s.emits, home, 0, InListener)], emits := s.emits + 1)
  }

  function BeginEmit(s: State, event: string): State {
    if event in s.table then Resume(Begun(s, s.table[event])) else s
  }

  /** The running listener or handler ends, normally or by throwing. */
  function Ended(s: State, threw: bool): State {
    if s.stack == [] then s
    else if !threw then Resume(s)
    else if s.stack[|s.stack| - 1].phase == InHandler then Left(s)
    else if s.hasHandler then Handling(s)
    else Resume(s)
  }

  function Step(s: State, a: Action): State {
    match a
    case On(event, id) => Subscribe(s, event, Listener(id))
    case Once(event, id) =>
      var wrapper := OnceWrapper(|s.wrappers|);
      Subscribe(s.(wrappers := s.wrappers + [Registration(HomeFor(s, event), id)]), event, wrapper)
    case Off(event, id) =>
      if event in s.table then Unsubscribed(s, s.table[event], Listener(id)) else s
    case Unsubscribe(home, f) => Unsubscribed(s, home, f)
    case RemoveAll(None) => s.(table := map[])
    case RemoveAll(Some(event)) => s.(table := s.table - {event})
    case SetHandler(present) => s.(hasHandler := present)
    case Emit(event) => BeginEmit(s, event)
    case Return => Ended(s, false)
    case Throw => Ended(s, true)
  }

  function ListenerCount(s: State, event: string): nat {
    if event in s.table && s.table[event] < |s.sets| then Size(s.sets[s.table[event]]) else 0
  }

  function Run(s: State, actions: seq<Action>): State
    decreases |actions|
  {
    if actions == [] then s else Run(Step(s, actions[0]), actions[1..])
  }

  // -------------------------------------------------------------- invariant

  /** Nothing is in a Set twice, and a wrapper is only in the Set it unsubscribes from. */
  ghost predicate SetsOk(s: State) {
    && (forall h, i, j :: 0 <= h < |s.sets| && 0 <= i < j < |s.sets[h]| && s.sets[h][i].Some? ==>
          s.sets[h][i] != s.sets[h][j])
    && (forall h, i :: 0 <= h < |s.sets| && 0 <= i < |s.sets[h]| ==> IsHoused(s.wrappers, h, s.sets[h][i]))
  }

  predicate IsHoused(wrappers: seq<Registration>, home: nat, slot: Option<Function>) {
    slot.Some? && slot.value.OnceWrapper? ==>
      slot.value.serial < |wrappers| && wrappers[slot.value.serial].home == home
  }

  ghost predicate FramesOk(s: State) {
    && (forall event :: event in s.table ==> s.table[event] < |s.sets|)
    && (forall j :: 0 <= j < |s.stack| ==> FrameOk(s, s.stack[j]))
    && (forall i, j :: 0 <= i < j < |s.stack| ==> s.stack[i].id < s.stack[j].id)
  }

  predicate FrameOk(s: State, frame: Frame) {
    frame.id < s.emits && frame.home < |s.sets| && frame.next <= |s.sets[frame.home]|
  }

  /** Each emit calls ever later slots of one Set, and never one at or behind its position. */
  ghost predicate LogOk(s: State) {
    && (forall a :: 0 <= a < |s.log| ==> s.log[a].frame < s.emits)
    && (forall a, j :: 0 <= a < |s.log| && 0 <= j < |s.stack| && s.log[a].frame == s.stack[j].id ==>
          s.log[a].home == s.stack[j].home && s.log[a].slot < s.stack[j].next)
    && (forall a, b :: 0 <= a < b < |s.log| && s.log[a].frame == s.log[b].frame ==>
          s.log[a].home == s.log[b].home && s.log[a].slot < s.log[b].slot)
  }

  ghost predicate WellFormed(s: State) {
    SetsOk(s) && FramesOk(s) && LogOk(s)
  }

  // ---------------------------------------------------- operations on Sets

  lemma AddedMeaning(slots: Slots, f: Function)
    ensures slots <= Added(slots, f)
    ensures Added(slots, f) == slots || (Added(slots, f) == slots + [Some(f)] && Find(slots, f) == |slots|)
  {
  }

  lemma RemovedMeaning(slots: Slots, f: Function)
    requires forall i, j :: 0 <= i < j < |slots| && slots[i].Some? ==> slots[i] != slots[j]
    ensures |Removed(slots, f)| == |slots|
    ensures forall i :: 0 <= i < |slots| ==>
                          Removed(slots, f)[i] == if slots[i] == Some(f) then None else slots[i]
  {
  }

  /**
   * `t` has the Sets of `s`, some slots emptied, with new slots only behind the
   * old ones and only for functions that are not wrappers of `s`.
   */
  ghost predicate SetsEvolve(s: State, t: State) {
    && |s.sets| <= |t.sets|
    && s.wrappers <= t.wrappers
    && (forall h :: 0 <= h < |s.sets| ==> |s.sets[h]| <= |t.sets[h]|)
    && (forall h, i :: 0 <= h < |s.sets| && 0 <= i < |s.sets[h]| ==>
          t.sets[h][i] == s.sets[h][i] || t.sets[h][i] == None)
    && (forall h, i :: 0 <= h < |t.sets| && 0 <= i < |t.sets[h]| && (h < |s.sets| ==> |s.sets[h]| <= i) ==>
          IsNew(s, t.sets[h][i]))
  }

  predicate IsNew(s: State, slot: Option<Function>) {
    slot.Some? && slot.value.OnceWrapper? ==> slot.value.serial >= |s.wrappers|
  }

  lemma UnsubscribedEvolves(s: State, home: nat, f: Function)
    requires SetsOk(s)
    ensures SetsOk(Unsubscribed(s, home, f)) && SetsEvolve(s, Unsubscribed(s, home, f))
    ensures Unsubscribed(s, home, f) == s.(sets := Unsubscribed(s, home, f).sets)
    ensures |Unsubscribed(s, home, f).sets| == |s.sets|
    ensures forall h :: 0 <= h < |s.sets| ==> |Unsubscribed(s, home, f).sets[h]| == |s.sets[h]|
    ensures home < |s.sets| ==> forall i :: 0 <= i < |s.sets[home]| ==>
                                              Unsubscribed(s, home, f).sets[home][i] != Some(f)
  {
    if home < |s.sets| {
      RemovedMeaning(s.sets[home], f);
    }
  }

  lemma SubscribeEvolves(s: State, event: string, f: Function)
    requires SetsOk(s) && IsHoused(s.wrappers, HomeFor(s, event), Some(f))
    ensures SetsOk(Subscribe(s, event, f))
    ensures |s.sets| <= |Subscribe(s, event, f).sets|
    ensures forall h :: 0 <= h < |s.sets| ==> s.sets[h] <= Subscribe(s, event, f).sets[h]
    ensures forall h, i :: 0 <= h < |Subscribe(s, event, f).sets| && 0 <= i < |Subscribe(s, event, f).sets[h]|
                           && (h < |s.sets| ==> |s.sets[h]| <= i) ==>
                             Subscribe(s, event, f).sets[h][i] == Some(f)
  {
    if event in s.table && s.table[event] < |s.sets| {
      AddedMeaning(s.sets[s.table[event]], f);
    }
  }
}
