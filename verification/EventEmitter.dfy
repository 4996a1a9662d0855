/**
 * The emitter as an object whose methods update it in place. `emit` hands
 * control to listeners, which call back into the object; so its loop is cut at
 * those points: `Emit` runs it up to the first listener, and `ListenerReturned`
 * and `ListenerThrew` run it on from there.
 */
module EventEmitter {
  import opened Wrappers
  import opened Events
  import opened EventRuns
  import opened EventCosts
  import opened EventRegistrations

  /** What `on` and `once` return: the captured Set and what was added to it. */
  datatype Unsubscriber = Unsubscriber(home: nat, f: Function)

  class SmartAccountEventEmitter {
    var sets: seq<Slots>
    var listeners: map<string, nat>
    var wrappers: seq<Registration>
    var hasErrorHandler: bool
    var emitting: seq<Frame>
    var emits: nat
    ghost var log: seq<Call>
    ghost var aborted: set<nat>

    ghost function View(): State
      reads this
    {
      State(sets, listeners, wrappers, hasErrorHandler, emitting, emits, log, aborted)
    }

    ghost predicate Valid()
      reads this
    {
      WellFormed(View())
    }

    constructor ()
      ensures Valid() && View() == INITIAL
    {
      sets, listeners, wrappers, hasErrorHandler := [], map[], [], true;
      emitting, emits, log, aborted := [], 0, [], {};
    }

    method Add(event: string, f: Function) returns (unsubscribe: Unsubscriber)
      requires Valid()
      modifies this`sets, this`listeners
      ensures View() == Subscribe(old(View()), event, f)
      ensures unsubscribe == Unsubscriber(HomeFor(old(View()), event), f)
    {
      if event !in listeners {
        sets, listeners := sets + [[]], listeners[event := |sets|];
      }
      var home := listeners[event];
      if Find(sets[home], f) == |sets[home]| {
        sets := sets[home := sets[home] + [Some(f)]];
      }
      assert Added([], f) == [Some(f)];
      assert sets == Subscribe(old(View()), event, f).sets;
      return Unsubscriber(home, f);
    }

    method On(event: string, id: nat) returns (unsubscribe: Unsubscriber)
      requires Valid()
      modifies this`sets, this`listeners
      ensures Valid() && View() == Step(old(View()), Action.On(event, id))
      ensures unsubscribe == Unsubscriber(HomeFor(old(View()), event), Listener(id))
    {
      StepKeepsInvariant(View(), Action.On(event, id));
      unsubscribe := Add(event, Listener(id));
    }

    method Once(event: string, id: nat) returns (unsubscribe: Unsubscriber)
      requires Valid()
      modifies this`sets, this`listeners, this`wrappers
      ensures Valid() && View() == Step(old(View()), Action.Once(event, id))
      ensures unsubscribe == Unsubscriber(HomeFor(old(View()), event), OnceWrapper(|old(wrappers)|))
      ensures IsRegistered(View(), event, unsubscribe.f) && Runs(wrappers, unsubscribe.f) == Some(id)
      ensures ListenerCount(View(), event) == old(ListenerCount(View(), event)) + 1
    {
      OnceIsRegistered(View(), event, id);
      StepKeepsInvariant(View(), Action.Once(event, id));
      MoreWrappersKeepInvariant(View(), Registration(HomeFor(View(), event), id));
      var home := if event in listeners then listeners[event] else |sets|;
      wrappers := wrappers + [Registration(home, id)];
      unsubscribe := Add(event, OnceWrapper(|wrappers| - 1));
    }

    method Delete(home: nat, f: Function)
      requires home < |sets|
      modifies this`sets
      ensures View() == Unsubscribed(old(View()), home, f)
    {
      var i := Find(sets[home], f);
      if i < |sets[home]| {
        sets := sets[home := sets[home][i := None]];
      }
      assert sets == Unsubscribed(old(View()), home, f).sets;
    }

    method Off(event: string, id: nat)
      requires Valid()
      modifies this`sets
      ensures Valid() && View() == Step(old(View()), Action.Off(event, id))
    {
      StepKeepsInvariant(View(), Action.Off(event, id));
      if event in listeners {
        Delete(listeners[event], Listener(id));
      }
    }

    /** Calling what `on` or `once` returned. */
    method Unsubscribe(captured: Unsubscriber)
      requires Valid() && captured.home < |sets|
      modifies this`sets
      ensures Valid() && View() == Step(old(View()), Action.Unsubscribe(captured.home, captured.f))
    {
      StepKeepsInvariant(View(), Action.Unsubscribe(captured.home, captured.f));
      Delete(captured.home, captured.f);
    }

    method RemoveAllListeners(which: Option<string>)
      requires Valid()
      modifies this`listeners
      ensures Valid() && View() == Step(old(View()), RemoveAll(which))
    {
      StepKeepsInvariant(View(), RemoveAll(which));
      match which
      case None => listeners := map[];
      case Some(event) => listeners := listeners - {event};
    }

    method SetErrorHandler(present: bool)
      requires Valid()
      modifies this`hasErrorHandler
      ensures Valid() && View() == Step(old(View()), SetHandler(present))
    {
      StepKeepsInvariant(View(), SetHandler(present));
      hasErrorHandler := present;
    }

    method GetListenerCount(event: string) returns (n: nat)
      requires Valid()
      ensures n == ListenerCount(View(), event)
    {
      n := if event in listeners then Size(sets[listeners[event]]) else 0;
    }

    /** The iterator of the Set skips empty slots. */
    method NextSlot(home: nat, from: nat) returns (i: nat)
      requires home < |sets| && from <= |sets[home]|
      ensures i == NextLive(sets[home], from)
    {
      i := from;
      while i < |sets[home]| && sets[home][i] == None
        invariant from <= i <= |sets[home]|
        invariant NextLive(sets[home], from) == NextLive(sets[home], i)
      {
        i := i + 1;
      }
    }

    /** Call the listener in slot `i`; a `once` wrapper starts by unsubscribing itself. */
    method CallListener(i: nat)
      requires Valid() && emitting != [] && i < |sets[emitting[|emitting| - 1].home]|
      requires sets[emitting[|emitting| - 1].home][i].Some?
      modifies this`sets, this`emitting, this`log
      ensures View() == CallSlot(old(View()), i)
    {
      var n := |emitting| - 1;
      var frame := emitting[n];
      var f := sets[frame.home][i].value;
      assert IsHoused(wrappers, frame.home, sets[frame.home][i]);
      emitting := emitting[n := frame.(next := i + 1, phase := InListener)];
      log := log + [Call(frame.id, frame.home, i, f, Runs(wrappers, f))];
      if f.OnceWrapper? {
        Delete(wrappers[f.serial].home, f);
      }
    }

    /** The loop of the innermost emit, up to the next listener or to its end. */
    method Loop()
      requires Valid() && emitting != []
      modifies this`sets, this`emitting, this`log
      ensures Valid() && View() == Resume(old(View()))
    {
      ResumeKeepsInvariant(View());
      var n := |emitting| - 1;
      var frame := emitting[n];
      assert FrameOk(View(), frame);
      var i := NextSlot(frame.home, frame.next);
      if i == |sets[frame.home]| {
        emitting := emitting[..n];
        return;
      }
      CallListener(i);
    }

    method BeginLoop(home: nat)
      requires Valid() && home < |sets|
      modifies this`emitting, this`emits
      ensures Valid() && View() == Begun(old(View()), home)
    {
      BegunOk(View(), home);
      emitting := emitting + [Frame(emits, home, 0, InListener)];
      emits := emits + 1;
    }

    method Emit(event: string)
      requires Valid()
      modifies this`sets, this`emitting, this`emits, this`log
      ensures Valid() && View() == BeginEmit(old(View()), event)
    {
      if event in listeners {
        BeginLoop(listeners[event]);
        Loop();
      }
    }

    method ListenerReturned()
      requires Valid() && emitting != []
      modifies this`sets, this`emitting, this`log
      ensures Valid() && View() == Ended(old(View()), false)
    {
      Loop();
    }

    /** A listener's error goes to the handler; the handler's own error leaves the emit. */
    method ListenerThrew()
      requires Valid() && emitting != []
      modifies this`sets, this`emitting, this`log, this`aborted
      ensures Valid() && View() == Ended(old(View()), true)
    {
      StepKeepsInvariant(View(), Throw);
      var n := |emitting| - 1;
      if emitting[n].phase == InHandler {
        aborted := aborted + {emitting[n].id};
        emitting := emitting[..n];
      } else if hasErrorHandler {
        emitting := emitting[n := emitting[n].(phase := InHandler)];
      } else {
        Loop();
      }
    }
  }
}
