/**
 * `debounce(func, wait)`: a wrapper that postpones `func` until `wait` ms
 * have passed without another call. Time appears only as the event that the
 * one scheduled timer fires; the wrapper's closure variable `timeout` is the
 * pending call, and every run of `func` is recorded in `delivered`.
 */
module Debounce {
  import opened Wrappers
  import opened TimerEvents

  /** The pending arguments (a scheduled timer) and the runs of `func` so far. */
  datatype State<A> = State(pending: Option<A>, delivered: seq<A>)

  function Init<A>(): State<A>
  {
    State(None, [])
  }

  /** One event: a call replaces what is pending; the timer runs what is pending. */
  function Step<A>(s: State<A>, e: Event<A>): State<A>
  {
    match e
    case Call(args) => s.(pending := Some(args))
    case TimerFires =>
      match s.pending
      case Some(args) => State(None, s.delivered + [args])
      case None => s
  }

  /** A sequence of events, in order. */
  function Run<A>(s: State<A>, es: seq<Event<A>>): State<A>
  {
    TimerEvents.Run(Step, s, es)
  }

  class Debouncer<A> {
    /** The arguments of the call the scheduled timer will make, if any. */
    var pending: Option<A>
    /** The arguments of every run of the wrapped function, oldest first. */
    var delivered: seq<A>

    function Current(): State<A>
      reads this
    {
      State(pending, delivered)
    }

    constructor ()
      ensures pending == None && delivered == []
    {
      pending := None;
      delivered := [];
    }

    /** The wrapper is called: the old timer is cleared and a new one set for `args`. */
    method Call(args: A)
      modifies this
      ensures pending == Some(args) && delivered == old(delivered)
      ensures Current() == Step(old(Current()), Event.Call(args))
    {
      pending := Some(args);
    }

    /** The timer expires: `func` runs once with the pending arguments. */
    method TimerFires() returns (ran: Option<A>)
      modifies this
      ensures ran == old(pending)
      ensures pending == None
      ensures delivered == old(delivered) + (if ran.Some? then [ran.value] else [])
      ensures Current() == Step(old(Current()), Event.TimerFires)
    {
      ran := pending;
      if pending.Some? {
        delivered := delivered + [pending.value];
        pending := None;
      }
    }
  }

  /** A burst of calls delivers nothing and leaves the last call's arguments pending. */
  lemma {:induction false} BurstKeepsLast<A>(s: State<A>, args: seq<A>)
    ensures Run(s, Calls(args)).delivered == s.delivered
    ensures Run(s, Calls(args)).pending == if args == [] then s.pending else Some(args[|args| - 1])
    decreases |args|
  {
    if args != [] {
      assert Calls(args)[1..] == Calls(args[1..]);
      BurstKeepsLast(Step(s, Call(args[0])), args[1..]);
    }
  }

  /**
   * Calls that keep arriving before the timer fires run nothing; once it
   * fires, the function runs exactly once, with the last call's arguments.
   */
  lemma BurstThenQuietDeliversLast<A>(s: State<A>, args: seq<A>)
    requires args != []
    ensures Run(s, Calls(args) + [TimerFires]) == State(None, s.delivered + [args[|args| - 1]])
  {
    RunAppend(Step, s, Calls(args), [TimerFires]);
    BurstKeepsLast(s, args);
  }

  /**
   * Runs only ever add to what was delivered, and each timer expiry adds at
   * most one run: the function never runs more often than the timer fires.
   */
  lemma {:induction false} AtMostOneRunPerFire<A>(s: State<A>, es: seq<Event<A>>)
    ensures var t := Run(s, es);
      |s.delivered| <= |t.delivered| <= |s.delivered| + Fires(es) && t.delivered[..|s.delivered|] == s.delivered
    decreases |es|
  {
    if es != [] {
      var s' := Step(s, es[0]);
      AtMostOneRunPerFire(s', es[1..]);
      var t := Run(s', es[1..]);
      assert t.delivered[..|s.delivered|] == t.delivered[..|s'.delivered|][..|s.delivered|];
    }
  }

  /** Whatever runs, runs with arguments some call supplied (or that were already pending). */
  lemma {:induction false} DeliveredCameFromCalls<A>(s: State<A>, es: seq<Event<A>>, x: A)
    requires |s.delivered| <= |Run(s, es).delivered|
    requires x in Run(s, es).delivered[|s.delivered|..]
    ensures Call(x) in es || s.pending == Some(x)
    decreases |es|
  {
    AtMostOneRunPerFire(s, es);
    if es == [] {
      assert false;
    } else {
      var s' := Step(s, es[0]);
      AtMostOneRunPerFire(s', es[1..]);
      var tail := Run(s', es[1..]).delivered;
      if |s'.delivered| <= |tail| && x in tail[|s'.delivered|..] {
        DeliveredCameFromCalls(s', es[1..], x);
        if Call(x) in es[1..] {
          assert es == [es[0]] + es[1..];
        }
      } else {
        assert tail[..|s'.delivered|] == s'.delivered;
        assert |s'.delivered| > |s.delivered|;
        assert s'.delivered == s.delivered + [x] by {
          assert tail[|s.delivered|..|s'.delivered|] == s'.delivered[|s.delivered|..];
        }
      }
    }
  }

  /** From a fresh wrapper, the function only ever runs with arguments it was called with. */
  lemma OnlyCalledArgumentsRun<A>(es: seq<Event<A>>, x: A)
    requires x in Run(Init(), es).delivered
    ensures Call(x) in es
  {
    var s: State<A> := Init();
    assert Run(s, es).delivered[|s.delivered|..] == Run(s, es).delivered;
    DeliveredCameFromCalls(s, es, x);
  }
}
