/**
 * The two marker classes the script keeps on `document.body`: "is-mobile"
 * (the viewport matches `(max-width: 767px)`) and "keyboard-nav" (the user
 * is navigating with Tab). The media query's answer is an input; the 250 ms
 * resize debounce is the Debounce wrapper, with time reduced to its timer
 * firing.
 */
module BodyClasses {
  import opened Wrappers
  import Debounce
  import TimerEvents

  const IS_MOBILE: string := "is-mobile"
  const KEYBOARD_NAV: string := "keyboard-nav"

  /** The class list after setup: "is-mobile" is added when the viewport is mobile. */
  function AfterSetup(classes: set<string>, isMobile: bool): set<string>
  {
    if isMobile then classes + {IS_MOBILE} else classes
  }

  /** The class list after the debounced resize handler, given the viewport at that moment. */
  function AfterResize(classes: set<string>, nowMobile: bool): set<string>
  {
    if nowMobile && IS_MOBILE !in classes then classes + {IS_MOBILE}
    else if !nowMobile && IS_MOBILE in classes then classes - {IS_MOBILE}
    else classes
  }

  /** The class list after a document keydown with the given `key`. */
  function AfterKeyDown(classes: set<string>, key: string): set<string>
  {
    if key == "Tab" then classes + {KEYBOARD_NAV} else classes
  }

  /** The class list after any document mousedown. */
  function AfterMouseDown(classes: set<string>): set<string>
  {
    classes - {KEYBOARD_NAV}
  }

  class Body {
    /** `document.body.classList`. */
    var classList: set<string>

    constructor (classes: set<string>)
      ensures classList == classes
    {
      classList := classes;
    }

    /** setupResponsiveMenu's first step. */
    method SetupResponsive(isMobile: bool)
      modifies this
      ensures classList == AfterSetup(old(classList), isMobile)
    {
      if isMobile {
        classList := classList + {IS_MOBILE};
      }
    }

    /** The resize handler's body, run when the debounce timer fires. */
    method ApplyViewport(nowMobile: bool)
      modifies this
      ensures classList == AfterResize(old(classList), nowMobile)
    {
      if nowMobile && IS_MOBILE !in classList {
        classList := classList + {IS_MOBILE};
      } else if !nowMobile && IS_MOBILE in classList {
        classList := classList - {IS_MOBILE};
      }
    }

    method OnKeyDown(key: string)
      modifies this
      ensures classList == AfterKeyDown(old(classList), key)
    {
      if key == "Tab" {
        classList := classList + {KEYBOARD_NAV};
      }
    }

    method OnMouseDown()
      modifies this
      ensures classList == AfterMouseDown(old(classList))
    {
      classList := classList - {KEYBOARD_NAV};
    }
  }

  /**
   * The resize listener's debounce timer expires: the handler runs only if a
   * resize is pending, and reads the viewport then, not at resize time.
   */
  method ResizeTimerFires(body: Body, resize: Debounce.Debouncer<()>, nowMobile: bool)
    modifies body, resize
    ensures resize.Current() == Debounce.Step(old(resize.Current()), TimerEvents.TimerFires)
    ensures body.classList == if old(resize.pending).Some? then AfterResize(old(body.classList), nowMobile)
                              else old(body.classList)
  {
    var ran := resize.TimerFires();
    if ran.Some? {
      body.ApplyViewport(nowMobile);
    }
  }

  /**
   * After the resize handler, "is-mobile" is present exactly when the
   * viewport is mobile, and no other class has changed.
   */
  lemma ResizeReflectsViewport(classes: set<string>, nowMobile: bool)
    ensures IS_MOBILE in AfterResize(classes, nowMobile) <==> nowMobile
    ensures AfterResize(classes, nowMobile) - {IS_MOBILE} == classes - {IS_MOBILE}
  {
  }

  /** Running the resize handler again with the same viewport changes nothing. */
  lemma ResizeIdempotent(classes: set<string>, nowMobile: bool)
    ensures AfterResize(AfterResize(classes, nowMobile), nowMobile) == AfterResize(classes, nowMobile)
  {
  }

  /** Setup may add "is-mobile" but never removes anything. */
  lemma SetupNeverRemoves(classes: set<string>, isMobile: bool)
    ensures classes <= AfterSetup(classes, isMobile)
    ensures AfterSetup(classes, isMobile) <= classes + {IS_MOBILE}
    ensures IS_MOBILE in AfterSetup(classes, isMobile) <==> isMobile || IS_MOBILE in classes
  {
  }

  /** Tab sets "keyboard-nav", any other key leaves the classes alone, a mousedown clears it. */
  lemma KeyboardNavTransitions(classes: set<string>, key: string)
    ensures KEYBOARD_NAV in AfterKeyDown(classes, key) <==> key == "Tab" || KEYBOARD_NAV in classes
    ensures key != "Tab" ==> AfterKeyDown(classes, key) == classes
    ensures KEYBOARD_NAV !in AfterMouseDown(classes)
    ensures AfterKeyDown(classes, key) - {KEYBOARD_NAV} == classes - {KEYBOARD_NAV}
    ensures AfterMouseDown(classes) - {KEYBOARD_NAV} == classes - {KEYBOARD_NAV}
  {
  }

  /** What reaches the window: a resize event, or the debounce timer firing while the viewport is as given. */
  datatype WindowEvent = Resize | Settle(nowMobile: bool)

  /**
   * The body classes after a sequence of window events, with `d` the resize
   * debouncer's state. Each event does what the methods do: a resize is
   * `Debouncer.Call`, an expiry is `ResizeTimerFires` (see ResizingSteps).
   */
  function Resizing(classes: set<string>, d: Debounce.State<()>, es: seq<WindowEvent>): set<string>
    decreases |es|
  {
    if es == [] then classes
    else match es[0]
      case Resize => Resizing(classes, Debounce.Step(d, TimerEvents.Call(())), es[1..])
      case Settle(v) =>
        var d' := Debounce.Step(d, TimerEvents.TimerFires);
        Resizing(if d.pending.Some? then AfterResize(classes, v) else classes, d', es[1..])
  }

  function Resizes(n: nat): (es: seq<WindowEvent>)
    ensures |es| == n && forall k | 0 <= k < n :: es[k] == Resize
  {
    seq(n, k => Resize)
  }

  /** A burst of resizes changes no class until the debounce timer fires. */
  lemma {:induction false} BurstLeavesClasses(classes: set<string>, d: Debounce.State<()>, n: nat, rest: seq<WindowEvent>)
    ensures Resizing(classes, d, Resizes(n) + rest) ==
            Resizing(classes, if n == 0 then d else Debounce.State(Some(()), d.delivered), rest)
    decreases n
  {
    if n > 0 {
      assert (Resizes(n) + rest)[0] == Resize;
      assert (Resizes(n) + rest)[1..] == Resizes(n - 1) + rest;
      BurstLeavesClasses(classes, Debounce.Step(d, TimerEvents.Call(())), n - 1, rest);
    } else {
      assert Resizes(n) + rest == rest;
    }
  }

  /**
   * After a burst of at least one resize and the quiet period, "is-mobile"
   * matches the viewport as it is when the timer fires.
   */
  lemma BurstThenSettleTracksViewport(classes: set<string>, d: Debounce.State<()>, n: nat, nowMobile: bool)
    requires n > 0
    ensures IS_MOBILE in Resizing(classes, d, Resizes(n) + [Settle(nowMobile)]) <==> nowMobile
  {
    BurstLeavesClasses(classes, d, n, [Settle(nowMobile)]);
    ResizeReflectsViewport(classes, nowMobile);
  }

  /**
   * One step of Resizing is one method call: a resize advances the debouncer
   * as Debouncer.Call does and leaves the classes alone; an expiry changes
   * the classes exactly as ResizeTimerFires promises and advances the
   * debouncer as Debouncer.TimerFires does.
   */
  lemma ResizingSteps(classes: set<string>, d: Debounce.State<()>, nowMobile: bool, rest: seq<WindowEvent>)
    ensures Resizing(classes, d, [Resize] + rest) ==
            Resizing(classes, Debounce.State(Some(()), d.delivered), rest)
    ensures Resizing(classes, d, [Settle(nowMobile)] + rest) ==
            Resizing(if d.pending.Some? then AfterResize(classes, nowMobile) else classes,
                     Debounce.Step(d, TimerEvents.TimerFires), rest)
  {
    assert ([Resize] + rest)[1..] == rest;
    assert ([Settle(nowMobile)] + rest)[1..] == rest;
  }
}
