/**
 * `throttle(func, limit)`: a wrapper that runs `func` at once and then
 * ignores calls until `limit` ms have passed. The closure variable
 * `inThrottle` is the cooldown flag; the expiry of the cooldown timer is an
 * event, and every run of `func` is recorded in `delivered`.
 */
module Throttle {
  import opened TimerEvents

  /** The cooldown flag and the runs of `func` so far. */
  datatype State<A> = State(inThrottle: bool, delivered: seq<A>)

  /** `inThrottle` starts undefined, which the wrapper's test reads as false. */
  function Init<A>(): State<A>
  {
    State(false, [])
  }

  /** One event: a call outside cooldown runs and starts cooldown; the timer ends it. */
  function Step<A>(s: State<A>, e: Event<A>): State<A>
  {
    match e
    case Call(args) => if !s.inThrottle then State(true, s.delivered + [args]) else s
    case TimerFires => s.(inThrottle := false)
  }

  /** A sequence of events, in order. */
  function Run<A>(s: State<A>, es: seq<Event<A>>): State<A>
  {
    TimerEvents.Run(Step, s, es)
  }

  class Throttler<A> {
    /** Whether a run happened less than `limit` ago. */
    var inThrottle: bool
    /** The arguments of every run of the wrapped function, oldest first. */
    var delivered: seq<A>

    function Current(): State<A>
      reads this
    {
      State(inThrottle, delivered)
    }

    constructor ()
      ensures !inThrottle && delivered == []
    {
      inThrottle := false;
      delivered := [];
    }

    /** The wrapper is called: outside cooldown `func` runs now; inside, the call is dropped. */
    method Call(args: A) returns (ran: bool)
      modifies this
      ensures ran == !old(inThrottle)
      ensures inThrottle
      ensures delivered == old(delivered) + (if ran then [args] else [])
      ensures Current() == Step(old(Current()), Event.Call(args))
    {
      ran := !inThrottle;
      if !inThrottle {
        delivered := delivered + [args];
        inThrottle := true;
      }
    }

    /** The cooldown timer expires. */
    method TimerFires()
      modifies this
      ensures !inThrottle && delivered == old(delivered)
      ensures Current() == Step(old(Current()), Event.TimerFires)
    {
      inThrottle := false;
    }
  }

  /** During cooldown every call is dropped: nothing runs, nothing is queued. */
  lemma {:induction false} CooldownDropsCalls<A>(s: State<A>, args: seq<A>)
    requires s.inThrottle
    ensures Run(s, Calls(args)) == s
    decreases |args|
  {
    if args != [] {
      assert Calls(args)[1..] == Calls(args[1..]);
      CooldownDropsCalls(s, args[1..]);
    }
  }

  /** Calls dropped during cooldown are not retried when the cooldown ends. */
  lemma DroppedCallsNotRetried<A>(s: State<A>, args: seq<A>)
    requires s.inThrottle
    ensures Run(s, Calls(args) + [TimerFires]) == State(false, s.delivered)
  {
    RunAppend(Step, s, Calls(args), [TimerFires]);
    CooldownDropsCalls(s, args);
  }

  /**
   * A burst of calls outside cooldown runs the function once, immediately,
   * with the first call's arguments, and leaves the wrapper cooling down.
   */
  lemma BurstRunsFirst<A>(s: State<A>, args: seq<A>)
    requires !s.inThrottle && args != []
    ensures Run(s, Calls(args)) == State(true, s.delivered + [args[0]])
  {
    assert Calls(args)[1..] == Calls(args[1..]);
    CooldownDropsCalls(Step(s, Call(args[0])), args[1..]);
  }

  /**
   * Only the timer ends a cooldown: between two runs the timer has fired, so
   * the function runs at most once per cooldown period, and runs only ever
   * add to what was delivered.
   */
  lemma {:induction false} AtMostOneRunPerPeriod<A>(s: State<A>, es: seq<Event<A>>)
    ensures var t := Run(s, es);
      |s.delivered| <= |t.delivered| <= |s.delivered| + (if s.inThrottle then 0 else 1) + Fires(es)
      && t.delivered[..|s.delivered|] == s.delivered
      && (t.inThrottle || |t.delivered| < |s.delivered| + (if s.inThrottle then 0 else 1) + Fires(es))
    decreases |es|
  {
    if es != [] {
      var s' := Step(s, es[0]);
      AtMostOneRunPerPeriod(s', es[1..]);
      var t := Run(s', es[1..]);
      assert t.delivered[..|s.delivered|] == t.delivered[..|s'.delivered|][..|s.delivered|];
    }
  }
}
