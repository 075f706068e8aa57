/**
 * What a timing wrapper sees: calls with arguments and the expiry of the one
 * timer it schedules. Both wrappers are step functions over these events.
 */
module TimerEvents {

  datatype Event<A> = Call(args: A) | TimerFires

  /** The state reached from `s` by the events `es`, in order. */
  function Run<S, A>(step: (S, Event<A>) -> S, s: S, es: seq<Event<A>>): S
    decreases |es|
  {
    if es == [] then s else Run(step, step(s, es[0]), es[1..])
  }

  /** A burst of calls with the given arguments, with no timer expiry between them. */
  function Calls<A>(args: seq<A>): (es: seq<Event<A>>)
    ensures |es| == |args|
    ensures forall k | 0 <= k < |args| :: es[k] == Call(args[k])
  {
    seq(|args|, k requires 0 <= k < |args| => Call(args[k]))
  }

  /** How many timer expiries a trace holds. */
  function Fires<A>(es: seq<Event<A>>): nat
  {
    if es == [] then 0 else (if es[0].TimerFires? then 1 else 0) + Fires(es[1..])
  }

  /** Running two traces one after the other is running their concatenation. */
  lemma {:induction false} RunAppend<S, A>(step: (S, Event<A>) -> S, s: S, xs: seq<Event<A>>, ys: seq<Event<A>>)
    ensures Run(step, s, xs + ys) == Run(step, Run(step, s, xs), ys)
    decreases |xs|
  {
    if xs != [] {
      assert (xs + ys)[1..] == xs[1..] + ys;
      RunAppend(step, step(s, xs[0]), xs[1..], ys);
    } else {
      assert xs + ys == ys;
    }
  }
}
