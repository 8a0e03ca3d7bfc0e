# Portfolio page script, modelled in Dafny

The site's single script (`script.js`) wires a mobile navigation toggle, a
scroll-reveal effect, skill bars that fill once when scrolled into view, a
toast helper and a contact form that validates its fields and hands them to
the EmailJS relay. This project models the decision logic of those
handlers as immutable records and pure functions, and proves what each one
promises:

- **Text** — `trim()` and the whitespace class shared with the regular
  expression's `\s`.
- **EmailPattern** — the anchored expression `^[^\s@]+@[^\s@]+\.[^\s@]+$` as
  a backtracking matcher over its atoms, a ghost definition of the language
  it denotes, and a plain description of the accepted strings (no
  whitespace, exactly one `@`, a non-empty local part, a domain with a dot
  that is neither its first nor its last character). The matcher is proved
  to decide the language, and the language to be exactly the described set.
- **ContactForm** — the submit handler split at its `await`: `OnSubmit`
  (trim, the three checks in order, entering the sending state and issuing
  the one send) and `OnSettle` (the `try` tail or the `catch`, then the
  `finally` that restores the button). The send's outcome is a parameter,
  `Resolve` or `Reject`.
- **Toasts** — `showToast` as an event `(message, severity)` appended when
  the toast root exists.
- **SkillBars** — the visibility band `top < innerHeight - 80 && bottom > 80`
  and the `data-animated` latch guarding the one width write.
- **Reveal** — the observer callback's "intersecting → visible and
  unobserved" reaction and the no-observer fallback.
- **NavToggle** — the toggle flip and the anchor-click close.

Browser geometry (bounding boxes, viewport height, which entries the
observer reports) and the relay's answer are inputs to the functions; the
rest is pure.

## Model

| member | source | states |
|---|---|---|
| Text.Trim | script.js:207-209 | the trimmed field is a contiguous slice of the input with only whitespace cut from either end; it is empty exactly when the input is all whitespace and otherwise starts and ends with a non-whitespace character |
| Text.SkipSpace | script.js:207-209 | the leading cut of `trim()`: everything skipped is whitespace and the stop position holds non-whitespace or is the end |
| Text.BackSpace | script.js:207-209 | the trailing cut of `trim()`: everything dropped is whitespace and the last kept character is not |
| Text.TrimIdempotent | script.js:207-209 | trimming a trimmed value changes nothing |
| Text.TrimNoSpace | script.js:207-209 | a value without whitespace is its own trim |
| EmailPattern.MatchDecidesLang | script.js:211-212 | the backtracking matcher accepts a string exactly when it is in the language of the anchored expression (sound and complete, for any sequence of literal and negated-class-plus atoms) |
| EmailPattern.Match | script.js:211-212 | the backtracking matcher over the expression's atoms: a match consumes at least one character per atom, and the empty expression matches only the empty string |
| EmailPattern.PlusStep | script.js:211-212 | a `[^\s@]+` atom either ends after its first character or continues over the rest |
| EmailPattern.CountOneIff | script.js:211-212 | a character occurs exactly once when its first occurrence is its only one |
| EmailPattern.LangPatternSplits | script.js:211-212 | the expression's language is exactly the strings that split at an `@` into a non-empty `[^\s@]` run and a `[^\s@]` run with an inner dot |
| EmailPattern.WellFormedSplits | script.js:211-212 | the plain description (no whitespace, one `@`, non-empty local part, domain dot strictly inside) is exactly the set of strings that split that way |
| EmailPattern.MatchIffWellFormed | script.js:211-212 | the pattern accepts a string if and only if it has no whitespace, exactly one `@`, a non-empty part before it, and a `.` strictly inside the part after it |
| EmailPattern.TestEmail | script.js:219 | `emailPattern.test(email)` is true exactly for well-formed addresses |
| EmailPattern.CountOf | script.js:211-212 | the `@` count is zero exactly when there is no `@` |
| EmailPattern.IndexOf | script.js:211-212 | the split point is the first `@`, or the end when there is none |
| ContactForm.Validate | script.js:207-227 | the checks run in order: a missing or all-whitespace field gives the required-fields error whatever the email and configuration; otherwise a malformed email gives the email error; otherwise a missing relay or configuration gives the not-configured error; otherwise a send whose payload is the three trimmed fields |
| ContactForm.OnSubmit | script.js:199-241 | a send is started exactly when validation passes and the form has a submit button; then the button is disabled, loading and shows "Sending...", exactly the payload validation produced is added to the sent list and the original label is kept for later; on any other path the button and sent list are untouched; a validation error adds the toast of the first failing check, and with no submit button the page is left exactly as it was |
| ContactForm.OnSettle | script.js:243-252 | after either outcome the button is enabled, not loading, with the kept label, and nothing more is sent; a resolved send resets the form to its defaults and adds the success toast, a rejected one leaves it unchanged and adds the generic failure toast |
| ContactForm.Submit | script.js:199-253 | one whole submission adds at most one toast and at most one send, keeps every earlier toast and send, and changes neither the form defaults, the service nor the toast root |
| ContactForm.BlankFieldStops | script.js:214-217 | a blank required field ends the submission with only the required-fields toast, whatever the email and configuration |
| ContactForm.ErrorPathsToastOnly | script.js:214-227 | every validation error leaves button, form and sent list as they were and adds only the toast of the first failing check |
| ContactForm.ExactlyOneSend | script.js:224-241 | a full submission sends exactly one payload of the trimmed name, email and message when the checks pass and the button exists, and sends nothing otherwise |
| ContactForm.ButtonRestored | script.js:229-252 | whether the send resolves or rejects, the button ends enabled, not loading and with its pre-submission label |
| ContactForm.SettleOutcome | script.js:243-247 | a resolved send resets the form and adds the success toast; a rejected one keeps the form and adds the generic failure toast |
| ContactForm.SentPayloadIsClean | script.js:237-241 | the name and message sent are non-empty without surrounding whitespace, and the reply address is well formed |
| ContactForm.TrimmedFieldIsClean | script.js:207-209 | a field that is not all whitespace trims to a non-empty value without surrounding whitespace |
| Toasts.ShowToast | script.js:169-184 | a toast adds exactly one `(message, severity)` event when the root exists and nothing otherwise, keeping earlier ones |
| SkillBars.AnimateBar | script.js:44-56 | a bar without a fill is skipped; a bar changes only when its fill is unmarked and its box is in the band, and then the string `${target}%` is assigned to its width; the mark is set afterwards exactly when it was set before or the bar was in the band |
| SkillBars.AnimateSkillBars | script.js:43-58 | the pass treats every bar independently, each against its own box |
| SkillBars.Replay | script.js:60-61 | over the scroll and load events a bar keeps its target, a bar without a fill is never changed, and a bar whose fill starts marked is never changed |
| SkillBars.LatchedBarIsFinal | script.js:53-55 | once marked, a bar is never changed again by any later pass |
| SkillBars.AnimateSkillBarsIdempotent | script.js:43-61 | repeating a pass over the same geometry changes nothing more |
| SkillBars.ReplayWritesOnce | script.js:43-61 | over any sequence of scroll and load events a bar is written at most once: it ends written exactly when it had an unmarked fill and some event saw it in the band, and is unchanged otherwise |
| Reveal.Init | script.js:18-38 | with an observer and elements, every element is observed and its visibility unchanged; without an observer every element is visible |
| Reveal.OnEntries | script.js:22-29 | after a callback an element is visible exactly when it was or an entry reported it intersecting, and still observed exactly when it was and no entry did |
| Reveal.OnEntry | script.js:24-27 | an intersecting entry makes its target visible and unobserved, a non-intersecting one leaves it alone, and no other element changes |
| Reveal.InitSettles | script.js:20-38 | when no element starts out visible or observed, after load no element is both visible and observed |
| Reveal.OnEntriesKeepsSettled | script.js:23-28 | if no element is both visible and observed before a callback, none is afterwards: every element revealed by the callback is unobserved |
| Reveal.RevealedIsFinal | script.js:24-27 | when no element is both visible and observed, a revealed element comes out of every later callback unchanged, so the reveal happens at most once |
| Reveal.FallbackRevealsAll | script.js:36-38 | without an observer every element is visible right after load, and loading again changes nothing |
| NavToggle.Step | script.js:5-14 | unwired, nothing changes; a toggle click flips `is-open`; a click inside the links closes them when its target is an anchor and otherwise leaves them alone |
| NavToggle.Run | script.js:5-14 | a history of clicks never installs or removes the handlers |
| NavToggle.ToggleTwice | script.js:6-8 | two toggle clicks cancel out |
| NavToggle.AnchorClickCloses | script.js:10-14 | when both the toggle and the links exist, after any history of clicks, a click whose target is an anchor leaves the links closed |
| NavToggle.TogglesFlipParity | script.js:6-8 | when both the toggle and the links exist, after `k` toggle clicks the links are open exactly when the start state and the parity of `k` differ |
| NavToggle.UnwiredIgnoresClicks | script.js:5 | without both the toggle and the links, no click changes anything |

## Left out

- The animation-library block (script.js:63-166): decorative, drives a foreign library, and is built on floating-point durations and easing.
- How the browser's intersection observer decides an element is intersecting, and its 0.18 threshold (script.js:21-33): the model takes the callback's entries as input and models only the reaction to them.
- The EmailJS client (`emailjs.init` and `emailjs.send`, script.js:235-241): modelled as a `Resolve`/`Reject` outcome. A synchronous throw from `emailjs.init` is treated as a `Reject` of the one send, so `sent` records the send as issued in that case too.
- Toast timers and DOM construction (script.js:173-192): the 3200 ms and 200 ms delays, the CSS classes and the created elements are browser plumbing; a toast is recorded as `(message, severity)`.
- The footer year (script.js:257-260), the `console.error` diagnostic in the `catch`, and the spinner markup (the sending label is modelled by its text content, "Sending...").
- SkillBars.AnimateBar: `width` is the last string the script assigned to `style.width`; the browser discards a string that is not a valid CSS length (`"null%"` for a missing `data-skill`, `"%"` for an empty one), and that parsing is not modelled, so on such inputs the rendered width stays as it was while the model records the assignment.
- Strings are sequences of Unicode scalar values, while the script's strings are sequences of UTF-16 code units that `trim()` and the regular expression (which has no `u` flag) read one unit at a time: a field holding a lone surrogate cannot be represented, and lengths and indices differ for characters outside the Basic Multilingual Plane. For every string that can be represented the accept and reject answers are the same.
- Bounding boxes and the viewport height are whole pixels (`int`) instead of floating-point numbers.
- Whitespace is the fixed set of ECMAScript WhiteSpace and LineTerminator code points; the Unicode `Zs` category is taken as of current Unicode and not tracked across versions.
- `form.reset()` is modelled as restoring a given set of default field values; per-control reset rules are not modelled.
- The handler does not guard against a second submission while a send is in flight (the disabled button is what prevents it in the browser); the model composes one submission at a time and proves nothing about interleaved ones.
- When the checks pass but the form has no submit button, the handler throws a `TypeError` while reading the label; the model leaves the page unchanged and does not model the rejected handler promise.
- `preventDefault` (no navigation happens) and a control name matched by several controls (`namedItem` returning a list) are not modelled.
- The links close only when the click's own target is an anchor: a click on an element nested inside an anchor does not close them. The no-observer branch is also taken when there are no reveal elements, where it does nothing.
