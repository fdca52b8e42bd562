/** `throttle(func, limit)`: a gate in front of `func`. A call while the gate
    is open goes through and closes it, and a timer set for `limit`
    milliseconds opens it again; a call while it is closed is dropped.
    Time is not modelled: the timer's expiry is an event of its own. */
module Throttling {

  datatype Event<A> = Call(args: A) | TimerFires

  /** What the gate has done after some events: the calls passed on to
      `func`, in order, and whether `inThrottle` is set. */
  datatype State<A> = State(forwarded: seq<A>, closed: bool)

  /** One event at the gate: the calls passed on only grow, by exactly one
      when a call finds the gate open; a call leaves the gate closed and the
      timer opens it. */
  function Step<A>(st: State<A>, e: Event<A>): (next: State<A>)
    ensures |st.forwarded| <= |next.forwarded| <= |st.forwarded| + 1
    ensures next.forwarded[..|st.forwarded|] == st.forwarded
    ensures |next.forwarded| > |st.forwarded| <==> e.Call? && !st.closed
    ensures e.Call? ==> next.closed
    ensures e.TimerFires? ==> !next.closed
  {
    match e
    case Call(args) => if st.closed then st else State(st.forwarded + [args], true)
    case TimerFires => State(st.forwarded, false)
  }

  /** The gate's state after `events`, starting open (`inThrottle` starts
      undefined, which is falsy). */
  function Replay<A>(events: seq<Event<A>>): (st: State<A>)
    ensures |st.forwarded| <= |events|
  {
    if events == [] then State([], false)
    else Step(Replay(events[..|events| - 1]), events[|events| - 1])
  }

  /** A timer only fires while the gate is closed: one timer is set each
      time a call goes through, and it fires once. */
  ghost predicate WellTimed<A>(events: seq<Event<A>>) {
    forall n :: 0 <= n < |events| && events[n].TimerFires? ==> Replay(events[..n]).closed
  }

  function Fires<A>(events: seq<Event<A>>): nat {
    if events == [] then 0
    else Fires(events[..|events| - 1]) + (if events[|events| - 1].TimerFires? then 1 else 0)
  }

  /** The calls among `events`, in order. */
  function Calls<A>(events: seq<Event<A>>): (calls: seq<A>)
    ensures |calls| <= |events|
  {
    if events == [] then []
    else
      var last := events[|events| - 1];
      Calls(events[..|events| - 1]) + (if last.Call? then [last.args] else [])
  }

  class Throttle<A> {
    /** The closure's `inThrottle`. */
    var inThrottle: bool
    /** The calls of `func` so far. */
    var forwarded: seq<A>
    ghost var events: seq<Event<A>>

    ghost predicate Valid()
      reads this
    {
      Replay(events) == State(forwarded, inThrottle) && WellTimed(events)
    }

    constructor ()
      ensures Valid() && !inThrottle && forwarded == [] && events == []
    {
      inThrottle := false;
      forwarded := [];
      events := [];
    }

    /** The function `throttle` returns, called with `args`: passed on to
        `func` exactly when the gate is open; the gate is closed afterwards
        either way. */
    method Call(args: A) returns (invoked: bool)
      requires Valid()
      modifies this
      ensures Valid()
      ensures invoked == !old(inThrottle)
      ensures inThrottle
      ensures forwarded == old(forwarded) + (if invoked then [args] else [])
      ensures events == old(events) + [Event.Call(args)]
    {
      invoked := !inThrottle;
      if !inThrottle {
        forwarded := forwarded + [args];
        inThrottle := true;
      }
      WellTimedSnoc(events, Event.Call(args));
      events := events + [Event.Call(args)];
    }

    /** The timer set by the last call that went through fires and opens
        the gate. */
    method TimerFires()
      requires Valid() && inThrottle
      modifies this
      ensures Valid()
      ensures !inThrottle && forwarded == old(forwarded)
      ensures events == old(events) + [Event.TimerFires]
    {
      inThrottle := false;
      WellTimedSnoc(events, Event.TimerFires);
      events := events + [Event.TimerFires];
    }
  }

  lemma ReplaySnoc<A>(events: seq<Event<A>>, e: Event<A>)
    ensures Replay(events + [e]) == Step(Replay(events), e)
  {
    assert (events + [e])[..|events|] == events;
  }

  lemma WellTimedSnoc<A>(events: seq<Event<A>>, e: Event<A>)
    requires WellTimed(events)
    requires e.TimerFires? ==> Replay(events).closed
    ensures WellTimed(events + [e])
  {
    var events' := events + [e];
    forall n | 0 <= n < |events'| && events'[n].TimerFires?
      ensures Replay(events'[..n]).closed
    {
      assert events'[..n] == if n < |events| then events[..n] else events;
      if n < |events| {
        assert events'[n] == events[n];
      }
    }
  }

  /** The calls passed on to `func` number the timer firings, plus one
      while the gate is closed: each opening of the gate lets exactly one
      call through, and `func` runs at most once per `limit` window. */
  lemma {:induction false} ForwardedCount<A>(events: seq<Event<A>>)
    requires WellTimed(events)
    ensures |Replay(events).forwarded| == Fires(events) + (if Replay(events).closed then 1 else 0)
  {
    if events != [] {
      var prefix := events[..|events| - 1];
      assert WellTimed(prefix) by {
        forall n | 0 <= n < |prefix| && prefix[n].TimerFires?
          ensures Replay(prefix[..n]).closed
        {
          assert prefix[..n] == events[..n] && prefix[n] == events[n];
        }
      }
      ForwardedCount(prefix);
      assert events[..|events| - 1] == prefix;
    }
  }

  /** Only calls that were made are passed on to `func`. */
  lemma {:induction false} ForwardedAreCalls<A>(events: seq<Event<A>>)
    ensures forall x :: x in Replay(events).forwarded ==> x in Calls(events)
  {
    if events != [] {
      ForwardedAreCalls(events[..|events| - 1]);
    }
  }

  /** A call while the gate is closed is dropped. */
  lemma CallWhileClosed<A>(events: seq<Event<A>>, args: A)
    requires Replay(events).closed
    ensures Replay(events + [Call(args)]) == Replay(events)
  {
    ReplaySnoc(events, Call(args));
  }

  /** Once the timer has fired, the next call goes through. */
  lemma CallAfterTimer<A>(events: seq<Event<A>>, args: A)
    ensures Replay(events + [TimerFires, Call(args)]).forwarded
         == Replay(events).forwarded + [args]
  {
    ReplaySnoc(events, TimerFires);
    ReplaySnoc(events + [TimerFires], Call(args));
    assert events + [TimerFires] + [Call(args)] == events + [TimerFires, Call(args)];
  }

  /** Of a burst of calls with no timer firing, only the first goes through
      if the gate was open, and none if it was closed. */
  lemma {:induction false} Burst<A>(events: seq<Event<A>>, burst: seq<A>)
    requires |burst| > 0
    ensures Replay(events + seq(|burst|, k requires 0 <= k < |burst| => Call(burst[k]))).forwarded
         == Replay(events).forwarded + (if Replay(events).closed then [] else [burst[0]])
    ensures Replay(events + seq(|burst|, k requires 0 <= k < |burst| => Call(burst[k]))).closed
    decreases |burst|
  {
    var calls := seq(|burst|, k requires 0 <= k < |burst| => Call(burst[k]));
    if |burst| == 1 {
      ReplaySnoc(events, Call(burst[0]));
      assert calls == [Call(burst[0])];
    } else {
      var init := burst[..|burst| - 1];
      var initCalls := seq(|init|, k requires 0 <= k < |init| => Call(init[k]));
      Burst(events, init);
      assert events + calls == (events + initCalls) + [Call(burst[|burst| - 1])];
      ReplaySnoc(events + initCalls, Call(burst[|burst| - 1]));
    }
  }
}
