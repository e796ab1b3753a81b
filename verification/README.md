# Portfolio page script, modelled in Dafny

`script.js` is the client-side behaviour of a static portfolio page. Almost all
of it is event wiring, but a few handlers make small decisions. This project
models those decisions as pure Dafny functions and methods over plain values,
with the DOM taken out:

- **Contact form** (`ContactForm`, `Email`, `Js`). The submit handler first
  rejects a form where a field is blank after `trim()`. It then rejects an
  e-mail that fails `/^[^\s@]+@[^\s@]+\.[^\s@]+$/`. Otherwise it logs the
  submission, shows a success toast and resets the form. `trim()` and `\s`
  share one white-space predicate, `Js.IsWs`. It holds the WhiteSpace and
  LineTerminator code points of ECMA-262 (sections 12.2 and 12.3). The
  Zs (space separator) part is the set in current Unicode: U+0020, U+00A0,
  U+1680, U+2000–U+200A, U+202F, U+205F and U+3000.
  `Email.MatchesPattern` follows the regular expression's structure, and
  `Email.WellFormed` says the same thing in readable terms. They are proved
  equal, and `Email.Test` is a one-pass scanner proved to decide both.
- **Toasts** (`Alerts`). `showAlert` builds the class name, the text and the
  background colour from its severity argument, which defaults to `info`.
- **Mobile menu** (`MobileMenu`). The state is the `active` class of the
  hamburger button and of the navigation list. The events are a hamburger
  click, a link click and a key press, where only Escape acts.
- **Navbar shadow** (`Navbar`). The shadow is a function of `scrollY`.
- **Active section** (`ActiveSection`). The scan picks the last section in
  document order with `pageYOffset >= offsetTop - 200`. Then each navigation
  link is restyled.
- **Typewriter** (`Typewriter`). The subtitle effect is a state machine over
  an index into the captured text.
- **Contact links** (`ContactLinks`). `mailto:` and `tel:` hrefs have the
  scheme removed to give the text copied to the clipboard.

Abstractions:
- Element lookup becomes parameters: field values, section `(id, offsetTop)` pairs and link hrefs.
- `getAttribute` becomes `Js.Attr`, which is `Null` or `Str(value)`.
- `window.scrollY` and `pageYOffset` are `real`, because they are doubles. `offsetTop` is an `int`.
- The clock value `new Date().toISOString()` is a `timestamp` parameter.
- The clipboard write is modelled as the text that would be written.
- Timers are not modelled. A typewriter run is the sequence of states its successive calls produce.

Some consequences of the code worth stating plainly:
- The active-section rule is `offset >= top - 200`, so a section counts once its top is at most 200 px below the scroll offset.
- The e-mail pattern allows exactly one `@`.
- The menu state is two independently toggled classes. `MobileMenu.StepKeepsSynced` shows that they stay equal when they start equal.

## Model

| member | source | states |
|---|---|---|
| `Js.Trim` | script.js:56 | the trimmed value is a slice of the input with only white space before and after it, and it neither starts nor ends with white space |
| `Js.TrimBlank` | script.js:56 | trim() yields '' exactly when every character of the value is ECMAScript white space (or the value is empty) |
| `Js.TrimUnique` | script.js:56 | any cut of a string into white space, a core without white space at its ends, and white space has trim() as its core, so trim() is fully determined by that description |
| `Js.TrimIdempotent` | script.js:56 | trimming an already trimmed value changes nothing |
| `Js.IndexOf` | script.js:267 | the first-occurrence search of replace with a string pattern returns a position where the pattern occurs with no earlier occurrence, or -1 exactly when it does not occur |
| `Js.RemoveFirstOfPrefix` | script.js:266-267 | when the href starts with the scheme, replace(scheme, '') leaves exactly the rest: scheme + result == href |
| `Email.PatternIsWellFormed` | script.js:62 | the expression ^[^\s@]+@[^\s@]+\.[^\s@]+$ accepts exactly the strings with no white space, exactly one '@', a non-empty part before it, and a '.' strictly inside the domain after it |
| `Email.Test` | script.js:62-63 | a single left-to-right scan returns true iff the e-mail matches the expression, equivalently iff it is well formed in the readable sense |
| `ContactForm.Validate` | script.js:55-66 | EmptyError iff some field is all white space (the trimmed check comes first); EmailError iff no field is blank and the untrimmed e-mail is not well formed; otherwise the payload is the four fields unchanged |
| `ContactForm.Submit` | script.js:46-81 | the submission is logged with the timestamp, the toast is green with the thank-you message and the form is reset only when validation passes; on either rejection nothing is logged, the toast is red with the matching message, and the fields are unchanged |
| `ContactForm.AcceptsExample` | script.js:55-66 | name Ann, e-mail ann@example.com, subject Hi and message Hello pass validation with the fields as payload |
| `ContactForm.RejectsMissingDomain` | script.js:61-66 | the e-mail "ann@" passes the blank check and fails the pattern |
| `ContactForm.RejectsLeadingSpace` | script.js:61-66 | " a@b.c" is not blank after trim() but fails the pattern, which runs on the untrimmed value |
| `Alerts.Background` | script.js:97 | the colour is #10b981 iff the type is success, #ef4444 iff it is error, and #3b82f6 for every other type |
| `Alerts.ShowAlert` | script.js:86-97 | the toast shows the message; the severity can be read back from the class name after "alert alert-" and a given severity sets the colour its type selects; an omitted type gives class alert-info and the blue colour |
| `Alerts.ClassDeterminesColor` | script.js:89-97 | two toasts with the same class name have the same background colour |
| `MobileMenu.Step` | script.js:5-16 | a hamburger click flips both classes; a link click or Escape (the keydown handler at script.js:204-210) clears both; any other key changes nothing |
| `MobileMenu.StepKeepsSynced` | script.js:5-8 | when the hamburger and the list agree, every event keeps them in agreement |
| `MobileMenu.RunKeepsSynced` | script.js:5-16 | from an agreeing state, any sequence of clicks and key presses keeps the two classes equal |
| `MobileMenu.ToggleTwice` | script.js:5-8 | two hamburger clicks restore the state |
| `MobileMenu.CloseIdempotent` | script.js:204-210 | a second link click or Escape after one has closed the menu changes nothing |
| `MobileMenu.RunMatchesHistory` | script.js:5-16 | after any event sequence, an element is active iff the hamburger was clicked an odd number of times since the last link click or Escape (or, with none, the starting state flipped by the click parity) |
| `Navbar.Shadow` | script.js:34-39 | the strong shadow iff scrollY > 50, strictly; at 50 and below the light shadow |
| `Navbar.ShadowMonotone` | script.js:34-39 | scrolling further down never turns the strong shadow back to the light one |
| `ActiveSection.Current` | script.js:241-250 | the result is the id attribute of the last section in document order with offset >= top - 200, or "" when no section qualifies |
| `ActiveSection.Restyle` | script.js:252-259 | a link loses the active class and gets the primary colour iff its href equals "#" + current; every other link's colour is cleared |
| `ActiveSection.OnScroll` | script.js:240-259 | the whole handler: current as above, and every link restyled against it, same number of links, hrefs kept |
| `ActiveSection.AtMostOneHighlighted` | script.js:252-259 | when link hrefs are pairwise distinct, no two links get the primary colour |
| `ActiveSection.HashLinkAtTop` | script.js:241-254 | when no section qualifies, current is "" and a link whose href is "#" is highlighted |
| `Typewriter.Tick` | script.js:156-162 | while the index is below the text length a call appends text[index] and advances the index by one; past the end it changes nothing |
| `Typewriter.TickKeepsValid` | script.js:156-162 | the subtitle always shows exactly the first index characters and the index never exceeds the text length |
| `Typewriter.TicksFromCleared` | script.js:152-162 | after k calls from the cleared subtitle, it shows the first min(k, length) characters of the original text |
| `Typewriter.TicksPastEnd` | script.js:157-161 | once the text is complete, any number of further calls changes nothing |
| `Typewriter.ChainLength` | script.js:157-160 | the typing step reschedules itself exactly while fewer than length characters have been typed |
| `ContactLinks.OnClick` | script.js:263-277 | a mailto: href copies the rest after the scheme with the e-mail toast; otherwise a tel: href copies the rest with the phone toast; any other href does nothing; a missing href throws |
| `ContactLinks.MailtoRoundTrip` | script.js:266-269 | clicking mailto:x copies exactly x |
| `ContactLinks.TelRoundTrip` | script.js:271-274 | clicking tel:x copies exactly x |

## Left out

- Smooth in-page scrolling (script.js:19-30): it is only a DOM lookup followed by `scrollIntoView`, and it has no decision beyond "target found".
- The reveal-on-scroll and lazy-image `IntersectionObserver`s, their thresholds and root margins, and the counter's one-shot guard: these callbacks are driven by the browser.
- The counter animation (script.js:173-189): it uses floating-point steps (`target/100`) with `Math.ceil`, and its suffix logic reads text it has already overwritten.
- The social-link handler (script.js:229-237): it compares the browser-resolved `this.href` property, which cannot be derived from the page's text.
- Timers: the 5000 ms and 300 ms toast removal, the 50 ms typewriter delay and the 20 ms counter delay. Also CSS keyframe injection, the body fade-in, skill-tag hover scaling and the "view" button placeholder toast. These are timing or presentation constants.
- The console logging itself, and `navigator.clipboard.writeText`. These are foreign calls. The model keeps the record that would be logged and the text that would be copied.
- The toast's fixed CSS (position, padding, shadow, animation): these are constants. `Alerts.Alert` keeps only the class name, the text and the colour.
- ContactForm.Submit: `form.reset()` restores each input's default value. The page's HTML is not part of this model, so the defaults are taken to be empty (`ContactForm.Cleared`).
- Typewriter.Tick: `charAt` and `length` work on UTF-16 code units, and the model works on Unicode scalar values. A character outside the Basic Multilingual Plane takes one step here instead of two. Trim and the e-mail pattern are unaffected, because no white-space code point lies outside that plane.
