# Portfolio page script — verified model of its behavioural core

The portfolio page's script (`src/index.js`) wires browser events to small
pieces of state. This project models the pieces whose behaviour can be stated
precisely once the browser is abstracted away, and proves what they promise:

- **Contact-form validator** (`setupFormValidation`): the e-mail shape check
  `/^[^\s@]+@[^\s@]+\.[^\s@]+$/` as a predicate over strings, proved equal to
  the regular expression read as a language; `String.prototype.trim`; and the
  submit loop that sets or clears each field's `error` class and folds `isValid`.
  The fields are records `{value, isEmail, error}` in an array.
- **Rate-limiting wrappers** (`debounce`, `throttle`): each is a class whose
  one field is the closure variable (`timeout` as the pending arguments,
  `inThrottle` as the cooldown flag), plus the history of runs of the wrapped
  function. Time is reduced to the event "the timer fires". Pure `Step`/`Run`
  functions give the same behaviour over event traces and carry the lemmas.
- **Body marker classes**: `is-mobile` (set at setup, recomputed by the
  debounced resize handler) and `keyboard-nav` (Tab keydown sets, mousedown
  clears), on a `Body` whose class list is a `set<string>`. The media query
  `(max-width: 767px)` is a boolean input, sampled when the debounce timer fires.
- **Accessibility injection** (`setupAccessibility`): aria-labels
  `"Link " + (index + 1)` for icon-only anchors, `role="region"` for
  sections, `role="presentation"` for the contact image. Anchors and sections
  are records in arrays; the contact image is a nullable object, since
  `querySelector` may find none.

Files: `wrappers.dfy` (Option), `events.dfy` (the events a timing wrapper
sees and runs over traces of them), `text.dfy` (whitespace class, trim, decimal
rendering), `email.dfy`, `form.dfy`, `debounce.dfy`, `throttle.dfy`,
`body.dfy`, `accessibility.dfy`.

Whitespace: JavaScript's `\s` and the set `trim` strips are the same:
ECMAScript WhiteSpace and LineTerminator. `Text.IsSpace` lists them: U+0009–U+000D,
U+0020, U+00A0, U+1680, U+2000–U+200A, U+2028, U+2029, U+202F, U+205F,
U+3000, U+FEFF.

Two behaviours of the code a reader might not expect:
- Labels are numbered by position in the whole list of matched anchors, so a
  skipped anchor leaves a gap ("Link 2", "Link 4"). They are not numbered
  consecutively over the labelled anchors.
- The throttle promises at most one run per cooldown period, not exactly one.
  A period with no call outside cooldown runs nothing.

## Model

| member | source | states |
|---|---|---|
| `Text.TrimStartDropsSpacePrefix` | src/index.js:234 | trimming the front removes exactly a whitespace prefix; the rest is a suffix of the input that starts with non-whitespace |
| `Text.TrimEndDropsSpaceSuffix` | src/index.js:234 | trimming the end removes exactly a whitespace suffix; the rest is a prefix that ends with non-whitespace |
| `Text.TrimIsInnerSlice` | src/index.js:234 | `trim()` returns a contiguous slice of the input, and everything dropped on either side is whitespace |
| `Text.TrimEdgesNotSpace` | src/index.js:234 | a non-empty `trim()` result neither starts nor ends with whitespace |
| `Text.TrimEmptyIffAllSpace` | src/index.js:234 | `!value.trim()` holds exactly when the value is empty or all whitespace (both directions) |
| `Text.Decimal` | src/index.js:140 | the rendering of `${index + 1}` is a non-empty run of digits with no leading zero |
| `Text.DecimalRoundTrip` | src/index.js:140 | parsing the decimal rendering of n gives back n |
| `Text.DecimalInjective` | src/index.js:140 | distinct numbers render differently |
| `Email.FirstAt` | src/index.js:243 | the index of the first '@': none before it, '@' at it when it is in range |
| `Email.IsEmailMatchesPattern` | src/index.js:243-244 | the check accepts a string exactly when `/^[^\s@]+@[^\s@]+\.[^\s@]+$/` matches it: no whitespace, one '@' with a non-empty local part, and a '.' with characters on both sides in the domain |
| `Email.SplitIsCheck` | src/index.js:243 | every way the pattern can match yields a string the check accepts |
| `Email.CheckIsSplit` | src/index.js:243 | every accepted string splits as local '@' domain-head '.' domain-tail with three non-empty runs of [^\s@] |
| `Email.NoDotRefused` | src/index.js:243-244 | "a@b" is refused |
| `Email.SimpleAddressAccepted` | src/index.js:243-244 | "a@b.c" and "a@b.c.d" are accepted |
| `Email.MalformedRefused` | src/index.js:243-244 | an empty local part, an empty part either side of the dot, a second '@' and inner whitespace are each refused |
| `FormValidation.Validated` | src/index.js:233-249 | after a submit every field keeps its value and type, and its error flag is set exactly when it is rejected (trimmed value empty, or an e-mail field failing the check on its untrimmed value), whatever the flag was |
| `FormValidation.Submit` | src/index.js:229-251 | the loop leaves the field array equal to `Validated` of the old one, and `isValid` is true exactly when no field ends with `error` |
| `FormValidation.SubmitIdempotent` | src/index.js:233-249 | the flags do not depend on the previous flags: submitting twice equals submitting once |
| `FormValidation.ValidIffNoneRejected` | src/index.js:230-251 | the form is valid after submit exactly when no field is rejected |
| `FormValidation.EmptyFieldBesideGoodEmail` | src/index.js:233-248 | an empty field is marked and a well-formed e-mail field beside it is not |
| `FormValidation.PaddedEmailRejected` | src/index.js:242-247 | an e-mail value with surrounding whitespace is marked, because the check sees the untrimmed value |
| `Debounce.Debouncer.constructor` | src/index.js:166-167 | a new wrapper has nothing pending and has run nothing |
| `Debounce.Debouncer.Call` | src/index.js:168-175 | a call replaces any pending arguments with its own and runs nothing |
| `Debounce.Debouncer.TimerFires` | src/index.js:169-172 | the timer runs the function once with the pending arguments, then nothing is pending |
| `Debounce.BurstKeepsLast` | src/index.js:173-174 | a burst of calls runs nothing and leaves the last call's arguments pending |
| `Debounce.BurstThenQuietDeliversLast` | src/index.js:166-176 | a burst followed by the timer runs the function exactly once, with the last call's arguments |
| `Debounce.AtMostOneRunPerFire` | src/index.js:168-175 | the run history only grows, by at most one run per timer expiry |
| `Debounce.DeliveredCameFromCalls` | src/index.js:168-171 | every new run uses arguments some call in the trace supplied, or that were already pending |
| `Debounce.OnlyCalledArgumentsRun` | src/index.js:166-176 | from a fresh wrapper, the function runs only with arguments it was called with |
| `Throttle.Throttler.constructor` | src/index.js:181-182 | a new wrapper is not cooling down and has run nothing |
| `Throttle.Throttler.Call` | src/index.js:183-189 | outside cooldown the call runs at once with its arguments; inside it is dropped; either way the wrapper is then cooling down |
| `Throttle.Throttler.TimerFires` | src/index.js:187 | the timer ends the cooldown and runs nothing |
| `Throttle.CooldownDropsCalls` | src/index.js:184 | during cooldown any number of calls change nothing |
| `Throttle.DroppedCallsNotRetried` | src/index.js:184-187 | calls dropped in cooldown are not run when the cooldown ends |
| `Throttle.BurstRunsFirst` | src/index.js:183-188 | a burst outside cooldown runs the function once, immediately, with the first call's arguments |
| `Throttle.AtMostOneRunPerPeriod` | src/index.js:181-190 | the run history only grows; the number of runs is at most one plus the number of timer expiries (none extra when starting in cooldown) |
| `BodyClasses.Body.SetupResponsive` | src/index.js:94-99 | setup adds `is-mobile` when the viewport is mobile and otherwise changes nothing |
| `BodyClasses.Body.ApplyViewport` | src/index.js:104-113 | the resize handler adds `is-mobile` when mobile and absent, removes it when not mobile and present |
| `BodyClasses.Body.OnKeyDown` | src/index.js:124-128 | a Tab keydown adds `keyboard-nav`; other keys change nothing |
| `BodyClasses.Body.OnMouseDown` | src/index.js:130-132 | a mousedown removes `keyboard-nav` |
| `BodyClasses.ResizeTimerFires` | src/index.js:102-115 | when the debounce timer fires, the handler runs only if a resize is pending, with the viewport as it is then |
| `BodyClasses.ResizeReflectsViewport` | src/index.js:105-113 | after the handler `is-mobile` is present exactly when the viewport is mobile, and no other class changed |
| `BodyClasses.ResizeIdempotent` | src/index.js:105-113 | running the handler again with the same viewport changes nothing |
| `BodyClasses.SetupNeverRemoves` | src/index.js:94-99 | setup only ever adds `is-mobile`, and it is present afterwards exactly when it was before or the viewport is mobile |
| `BodyClasses.KeyboardNavTransitions` | src/index.js:124-132 | Tab sets `keyboard-nav`, other keys leave the classes unchanged, mousedown clears it; no other class is touched |
| `BodyClasses.BurstLeavesClasses` | src/index.js:102-115 | resize events alone change no class; they only leave a handler run pending |
| `BodyClasses.BurstThenSettleTracksViewport` | src/index.js:102-115 | after a burst of resizes and the quiet period, `is-mobile` matches the viewport at the moment the timer fires |
| `Accessibility.LabelledAll` | src/index.js:135-143 | every anchor's result is the anchor labelled at its own position in the whole matched list |
| `Accessibility.WithRegionAll` | src/index.js:146-150 | every section's result is that section with a "region" role added if it had none |
| `Accessibility.LabelIconLinks` | src/index.js:135-143 | the anchor at position i gets "Link " + (i+1) exactly when it had no aria-label and sits in a links container; every other anchor is unchanged |
| `Accessibility.AddRegionRoles` | src/index.js:146-150 | sections without a role get "region"; existing roles are kept |
| `Accessibility.MarkContactImage` | src/index.js:153-156 | the contact image, if present and without a role, gets "presentation"; a role already there is kept |
| `Accessibility.InjectAttributes` | src/index.js:135-156 | the three injections together leave the page equal to `Inject` of the old page |
| `Accessibility.LabelledExactly` | src/index.js:136-142 | an anchor ends with label "Link n" exactly when it already had that label, or had none, sits in a links container and n is its position plus one |
| `Accessibility.InjectedLabelsDistinct` | src/index.js:140 | two anchors labelled by the injection get different labels |
| `Accessibility.NumberingKeepsGaps` | src/index.js:136-142 | skipped anchors still use up their position: the labels can be "Link 2" and "Link 4" |
| `Accessibility.InjectIdempotent` | src/index.js:135-156 | running the injection twice gives the same page as running it once |
| `Accessibility.RolesOnlyAdded` | src/index.js:146-156 | afterwards every section has a role, roles already present are kept, and the contact image is present after exactly when before |
| `Text.Trim` | src/index.js:234 | definition, no contract; characterised by `Text.TrimIsInnerSlice`, `Text.TrimEdgesNotSpace` and `Text.TrimEmptyIffAllSpace` |
| `Email.IsEmail` | src/index.js:243-244 | definition, no contract; characterised by `Email.IsEmailMatchesPattern` |
| `FormValidation.Rejected` | src/index.js:234-247 | definition, no contract; characterised by `FormValidation.Validated` and `FormValidation.ValidIffNoneRejected` |
| `Debounce.Step` | src/index.js:168-175 | definition, no contract; characterised by `Debounce.BurstThenQuietDeliversLast` and `Debounce.AtMostOneRunPerFire` |
| `Throttle.Step` | src/index.js:183-189 | definition, no contract; characterised by `Throttle.BurstRunsFirst`, `Throttle.CooldownDropsCalls` and `Throttle.AtMostOneRunPerPeriod` |
| `BodyClasses.AfterSetup` | src/index.js:94-99 | definition, no contract; characterised by `BodyClasses.SetupNeverRemoves` |
| `BodyClasses.AfterResize` | src/index.js:105-113 | definition, no contract; characterised by `BodyClasses.ResizeReflectsViewport` and `BodyClasses.ResizeIdempotent` |
| `BodyClasses.AfterKeyDown` | src/index.js:124-128 | definition, no contract; characterised by `BodyClasses.KeyboardNavTransitions` |
| `BodyClasses.AfterMouseDown` | src/index.js:130-132 | definition, no contract; characterised by `BodyClasses.KeyboardNavTransitions` |
| `BodyClasses.Resizing` | src/index.js:102-115 | definition, no contract; characterised by `BodyClasses.BurstLeavesClasses` and `BodyClasses.BurstThenSettleTracksViewport`, and tied to the methods by `BodyClasses.ResizingSteps` |
| `BodyClasses.ResizingSteps` | src/index.js:102-115 | one resize event advances the debouncer as `Debounce.Debouncer.Call` does; one expiry changes the classes as `BodyClasses.ResizeTimerFires` does |
| `Accessibility.Labelled` | src/index.js:136-142 | definition, no contract; characterised by `Accessibility.LabelledExactly` |
| `Accessibility.WithRegion` | src/index.js:146-150 | definition, no contract; characterised by `Accessibility.RolesOnlyAdded` |
| `Accessibility.WithPresentation` | src/index.js:153-156 | definition, no contract; characterised by `Accessibility.RolesOnlyAdded` |
| `Accessibility.Inject` | src/index.js:135-156 | definition, no contract; characterised by `Accessibility.InjectIdempotent` and `Accessibility.RolesOnlyAdded` |

## Left out

- Smooth scrolling (src/index.js:29-39): `scrollIntoView` and selector lookup are browser calls with no logic of their own.
- Project card keydown, focus, blur and hover styling (src/index.js:45-86): inline style strings and a one-way "active" class.
- The scroll-reveal observer (src/index.js:196-215): it depends on IntersectionObserver geometry and a fractional threshold.
- The performance logger (src/index.js:264-273) and the success `console.log` (src/index.js:251-255): output only.
- The theme switcher (src/index.js:282-306): `matchMedia` and `localStorage` calls; the value read at src/index.js:284 is unused.
- Real time: timers, the 250 ms resize delay and the throttle `limit` are reduced to explicit "timer fires" events. Event dispatch, `preventDefault`, the DOMContentLoaded bootstrap, the stylesheet import and the CommonJS export are not modelled.
- Selector matching (`querySelectorAll`, `:has`, `closest('[class*="links"]')`, `input.type`) is taken as given: the arrays are the matched elements in document order, and the booleans on the records are the matching results.
- Debounce.Debouncer.TimerFires and Throttle.Throttler.TimerFires: a timer expiry with no timer scheduled cannot happen in the browser; the model accepts it as a no-op for debounce and as clearing the already-clear flag for throttle.
- Throttle.Throttler.Call: the `this` value that `func.apply` passes on is not modelled; only the arguments are recorded. The wrapped function is assumed to return normally and not to call the wrapper again: src/index.js:185 runs it before line 186 sets the cooldown flag, so a throw would leave the flag unset with no timer scheduled, and a nested call would run the function again; `Throttle.AtMostOneRunPerPeriod` holds only under this assumption.
- Strings are sequences of Unicode scalar values, whereas JavaScript strings are UTF-16 code units. No `\s` character is outside the Basic Multilingual Plane, so the e-mail check and trim are unaffected. Lone surrogates cannot be written in the model.
