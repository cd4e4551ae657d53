/**
 src/resolvers/index.ts, the `deploymentLogs` and `deploymentStatus`
 subscriptions: an async generator fed by an event handler through a queue
 and a one-shot waiter. The steps begin once the handler is registered.
 */
module EventStream {

  /** Where the generator stands between the steps of the event loop. */
  datatype Consumer =
    | Idle     // suspended at a yield, or not pulled yet
    | Waiting  // at the await, with the waiter installed
    | Woken    // the waiter has been called; the await has not resumed yet

  datatype State<E> = State(queue: seq<E>, consumer: Consumer)

  datatype Action<E> =
    | Emit(event: E)  // the handler runs
    | Pull            // the client asks for the next value
    | Resume          // the awaited promise continues

  /** The run so far; `queued[i]` says whether the i-th event was put on the queue when it was emitted. */
  datatype Trace<E> = Trace(state: State<E>, emitted: seq<E>, queued: seq<bool>, yielded: seq<E>, wakes: nat)

  function Start<E>(): Trace<E> {
    Trace(State([], Idle), [], [], [], 0)
  }

  /** The generator runs up to its next yield or await. */
  function Advance<E>(t: Trace<E>): Trace<E> {
    if t.state.queue != [] then
      t.(state := State(t.state.queue[1..], Idle), yielded := t.yielded + [t.state.queue[0]])
    else
      t.(state := State([], Waiting))
  }

  /** An action that the state does not allow does nothing. */
  function Step<E>(t: Trace<E>, a: Action<E>): Trace<E> {
    match a
    case Emit(e) =>
      if t.state.consumer == Waiting then
        Trace(t.state.(consumer := Woken), t.emitted + [e], t.queued + [false], t.yielded, t.wakes + 1)
      else
        Trace(t.state.(queue := t.state.queue + [e]), t.emitted + [e], t.queued + [true], t.yielded, t.wakes)
    case Pull => if t.state.consumer == Idle then Advance(t) else t
    case Resume => if t.state.consumer == Woken then Advance(t) else t
  }

  function Run<E>(t: Trace<E>, actions: seq<Action<E>>): Trace<E> {
    if actions == [] then t else Step(Run(t, actions[..|actions| - 1]), actions[|actions| - 1])
  }

  /** The events whose flag is `flag`, in order. */
  function Select<E>(events: seq<E>, flags: seq<bool>, flag: bool): seq<E>
    requires |events| == |flags|
  {
    if events == [] then []
    else
      var n := |events| - 1;
      Select(events[..n], flags[..n], flag) + if flags[n] == flag then [events[n]] else []
  }

  ghost predicate Conserved<E>(t: Trace<E>) {
    && |t.emitted| == |t.queued|
    && t.yielded + t.state.queue == Select(t.emitted, t.queued, true)
    && t.wakes == |Select(t.emitted, t.queued, false)|
    && (t.state.consumer == Waiting ==> t.state.queue == [])
  }

  lemma StepConserves<E>(t: Trace<E>, a: Action<E>)
    requires Conserved(t)
    ensures Conserved(Step(t, a))
  {
  }

  lemma {:induction false} SelectCounts<E>(events: seq<E>, flags: seq<bool>)
    requires |events| == |flags|
    ensures |Select(events, flags, true)| + |Select(events, flags, false)| == |events|
  {
    if events == [] {
    } else {
      SelectCounts(events[..|events| - 1], flags[..|events| - 1]);
    }
  }

  /**
   In every interleaving: what was yielded, followed by what is queued, is the
   sequence of the emitted events that found no waiter, in order and once each;
   the others are lost, one for each wake-up.
   */
  lemma {:induction false} RunConserves<E>(actions: seq<Action<E>>)
    ensures var t := Run(Start(), actions);
            && Conserved(t)
            && |t.emitted| == |t.yielded| + |t.state.queue| + t.wakes
  {
    if actions == [] {
      assert Select<E>([], [], true) == [];
    } else {
      RunConserves(actions[..|actions| - 1]);
      StepConserves(Run(Start(), actions[..|actions| - 1]), actions[|actions| - 1]);
    }
    SelectCounts(Run(Start(), actions).emitted, Run(Start(), actions).queued);
  }

  /** The flag of an event is false exactly when the waiter was installed as it was emitted. */
  lemma {:induction false} LostMeansWaiting<E>(actions: seq<Action<E>>, n: nat)
    requires n < |actions| && actions[n].Emit?
    ensures var before, t := Run(Start(), actions[..n]), Run(Start(), actions);
            && |before.emitted| < |t.emitted| == |t.queued|
            && t.emitted[|before.emitted|] == actions[n].event
            && (t.queued[|before.emitted|] <==> before.state.consumer != Waiting)
  {
    RunConserves(actions[..n]);
    if n == |actions| - 1 {
    } else {
      var shorter := actions[..|actions| - 1];
      assert shorter[..n] == actions[..n];
      LostMeansWaiting(shorter, n);
    }
  }

  /** Events that arrive one at a time, each after the consumer has gone back to waiting. */
  function OneAtATime<E>(events: seq<E>): seq<Action<E>> {
    if events == [] then [Pull] else OneAtATime(events[..|events| - 1]) + [Emit(events[|events| - 1]), Resume]
  }

  /** A client that keeps up with such events is never sent any of them. */
  lemma {:induction false} PromptConsumerGetsNothing<E>(events: seq<E>)
    ensures var t := Run(Start(), OneAtATime(events));
            t.yielded == [] && t.state == State([], Waiting) && t.emitted == events && t.wakes == |events|
  {
    if events == [] {
      RunNext<E>(Start(), [], Pull);
    } else {
      var earlier, e := events[..|events| - 1], events[|events| - 1];
      assert events == earlier + [e];
      PromptConsumerGetsNothing(earlier);
      OneMore(earlier, e);
      EmitAndResume(Run(Start(), OneAtATime(earlier)), e);
    }
  }

  lemma OneMore<E>(earlier: seq<E>, e: E)
    ensures Run(Start(), OneAtATime(earlier + [e])) == Step(Step(Run(Start(), OneAtATime(earlier)), Emit(e)), Resume)
  {
    var actions := OneAtATime(earlier);
    assert (earlier + [e])[..|earlier|] == earlier;
    assert OneAtATime(earlier + [e]) == actions + [Emit(e)] + [Resume];
    RunNext(Start(), actions, Emit(e));
    RunNext(Start(), actions + [Emit(e)], Resume);
  }

  lemma EmitAndResume<E>(t: Trace<E>, e: E)
    requires t.state == State([], Waiting)
    ensures Step(Step(t, Emit(e)), Resume) ==
            Trace(State([], Waiting), t.emitted + [e], t.queued + [false], t.yielded, t.wakes + 1)
  {
  }

  lemma RunNext<E>(t: Trace<E>, actions: seq<Action<E>>, a: Action<E>)
    ensures Run(t, actions + [a]) == Step(Run(t, actions), a)
  {
  }

  // ---- The generator's own variables ----

  class Subscription<E> {
    var queue: seq<E>
    var resolve: bool   // a waiter is installed
    var woken: bool     // the await has been resolved and will continue

    ghost var trace: Trace<E>

    ghost predicate Valid()
      reads this
    {
      && trace.state == State(queue, if resolve then Waiting else if woken then Woken else Idle)
      && !(resolve && woken)
      && Conserved(trace)
    }

    constructor ()
      ensures Valid() && trace == Start()
    {
      queue, resolve, woken := [], false, false;
      trace := Start();
    }

    method Handle(event: E)
      requires Valid()
      modifies this
      ensures Valid() && trace == Step(old(trace), Emit(event))
    {
      StepConserves(trace, Emit(event));
      if resolve {
        resolve, woken := false, true;
      } else {
        queue := queue + [event];
      }
      trace := Step(trace, Emit(event));
    }

    /** One turn of the generator: `next` if it is suspended at a yield, else the resumed await. */
    method Advance() returns (yielded: seq<E>)
      requires Valid() && !resolve
      modifies this
      ensures Valid() && trace == Step(old(trace), if old(woken) then Resume else Pull)
      ensures trace.yielded == old(trace).yielded + yielded
    {
      ghost var a := if woken then Resume else Pull;
      StepConserves(trace, a);
      woken := false;
      if |queue| > 0 {
        yielded := [queue[0]];
        queue := queue[1..];
      } else {
        yielded := [];
        resolve := true;
      }
      trace := Step(trace, a);
    }
  }
}
