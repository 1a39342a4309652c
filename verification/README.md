# Landing-page modals and waitlist sign-up, modelled in Dafny

The page script of a marketing landing page opens and closes modal dialogs and
runs a waitlist sign-up form inside one of them. This project models the two
parts of `script.js` that carry state:

- **the email check** of the waitlist form: the field's value is trimmed
  (`String.prototype.trim`) and checked against `/^[^\s@]+@[^\s@]+\.[^\s@]+$/`;
- **the modal / waitlist state machine**: `openModal`, `closeModal`, the
  open-button, close-button, backdrop and Escape listeners, and the form's
  `showSuccess`, `syncState` and submit handler, over a page abstracted into
  one immutable record.

Modules, one per concern:

| file | module | what it holds |
|---|---|---|
| `wrappers.dfy` | `Wrappers` | `Option`, for values that may be `null` |
| `whitespace.dfy` | `Whitespace` | `IsWs` (the ECMAScript WhiteSpace and LineTerminator set that both `trim` and `\s` use), `Trim` and its characterization |
| `email.dfy` | `EmailPattern` | `RegexMatch` (what the pattern means as a regular expression), `IsValidEmail` (its structural reading), the proof that they agree, and `AcceptsInput` (the form's test) |
| `dom.dfy` | `Dom` | the `Modal` and `Page` records, the constants `"waitlist-modal"`, `"waitlistEmail"` and `"Please enter a valid email."`, frame predicates |
| `waitlist.dfy` | `WaitlistForm` | `ShowSuccess`, `SyncState`, `Submit` |
| `modals.dfy` | `ModalLifecycle` | `Open`, `Close`, `CloseButton`, `BackdropClick`, `Escape`, `KeyDown`, and the Escape handler's `forEach` loop as written |
| `session.dfy` | `Session` | all listeners as one `Event` type, runs of events, the invariants, and the no-resubmission property |

The page record keeps, per modal, the `is-open` and `is-success` classes, the
`aria-hidden` attribute and its first focusable control; globally, the body's
`no-scroll` class, `document.activeElement`, the `lastActive` variable (one for
all modals), the email field's current and default value, the message text,
and local storage as a map from keys to strings.

Strings are sequences of Unicode scalar values. JavaScript compares UTF-16
code units, but a surrogate half is neither whitespace nor `@`, so for
well-formed UTF-16 the verdict of the pattern is the same (lone surrogates are
under "Left out").

Three behaviours of the script are kept on purpose: `lastActive` is shared by
all modals (`Session.LastActiveIsShared`), closing any modal releases the one
body scroll lock even if another modal stays open (`Session.ScrollLockIsShared`),
and a stored empty string counts as no sign-up because `syncState` tests
truthiness (`Session.EmptyStoredEmailIsAbsent`).

## Model

| member | source | states |
|---|---|---|
| `Whitespace.Trim` | script.js:136 | the result is the unique core of the input with only whitespace before and after it and no whitespace at either end |
| `Whitespace.TrimCharacterized` | script.js:136 | any string of the form whitespace, core without edge whitespace, whitespace trims to exactly that core |
| `Whitespace.TrimIdempotent` | script.js:136 | trimming an already trimmed value changes nothing |
| `Whitespace.TrimPadding` | script.js:136 | surrounding a value with whitespace does not change what the form reads from it |
| `EmailPattern.RegexMatchIffValid` | script.js:120 | the pattern matches a string exactly when it has no whitespace, exactly one `@`, a non-empty part before it, and after it a `.` with text on both sides (other dots allowed) |
| `EmailPattern.AcceptsInput` | script.js:136-138 | the form accepts a field value exactly when the pattern matches the trimmed value |
| `EmailPattern.ValidEmailLength` | script.js:120 | every accepted address has at least five characters, so it is never the empty string |
| `EmailPattern.ValidEmailIsTrimmed` | script.js:120 | an accepted address has no surrounding whitespace, so trimming it again is the identity |
| `WaitlistForm.ShowSuccess` | script.js:115-118 | the waitlist modal gets `is-success` and the message is emptied; nothing else about the modals, focus or storage changes |
| `WaitlistForm.SyncState` | script.js:122-132 | the waitlist modal shows success exactly when storage holds a non-empty email; the message is always emptied; without one the field is reset to its default |
| `WaitlistForm.StoreAndShow` | script.js:143-144 | the email is stored under `waitlistEmail` with every other key kept, and the waitlist modal shows success with the message emptied, no modal opened or closed |
| `WaitlistForm.Submit` | script.js:134-146 | a rejected trimmed value only sets "Please enter a valid email." and leaves storage and every modal unchanged; an accepted one stores exactly the trimmed value under `waitlistEmail`, keeps other keys, sets `is-success` and empties the message; no submission opens or closes a modal |
| `WaitlistForm.SubmitSaves` | script.js:143 | after an accepted submission storage holds a truthy email |
| `ModalLifecycle.Shut` | script.js:67-73 | closing a set of modals clears their `is-open` and `is-success`, sets `aria-hidden`, releases the scroll lock and restores `lastActive` focus when the set is non-empty, and leaves every other modal as it was |
| `ModalLifecycle.Close` | script.js:67-73 | closing a modal clears its `is-open` and `is-success`, sets `aria-hidden`, clears the one body scroll lock, sends focus to `lastActive` when there is one, and leaves other modals as they were |
| `ModalLifecycle.OpenCloseRestoresFocus` | script.js:58-72 | opening a modal and then closing it leaves it closed, releases the scroll lock and returns focus to the element focused before it opened |
| `ModalLifecycle.ShutTwice` | script.js:67-73 | closing one set of modals and then another is the same as closing their union |
| `ModalLifecycle.CloseIdempotent` | script.js:67-73 | closing a modal twice equals closing it once |
| `ModalLifecycle.Reveal` | script.js:58-63 | the modal is open and not hidden, the body is locked, `lastActive` holds the focus from before, focus moves to the first focusable control when there is one; nothing else changes |
| `ModalLifecycle.Open` | script.js:57-65 | for an id naming a modal: it is open and not hidden, the body is locked, `lastActive` records the focus from before, focus moves to the first focusable control; opening the wired waitlist modal shows success iff a non-empty email is stored, keeping the email field as it was, and otherwise resets the form; an unknown id changes nothing |
| `ModalLifecycle.CloseButton` | script.js:84-89 | a close button closes only the modal around it, exactly as closing it does (`is-open` and `is-success` removed, `aria-hidden` set, scroll lock released, focus back to `lastActive`), and does nothing when it is in no modal |
| `ModalLifecycle.BackdropClick` | script.js:91-95 | a click reaching a modal closes it, with every effect of closing, only when the click target is the modal element itself; otherwise nothing changes |
| `ModalLifecycle.Escape` | script.js:97-103 | afterwards no modal is open; modals that were closed are untouched and open ones are closed; when some modal was open the scroll lock is released and focus goes back to `lastActive` |
| `ModalLifecycle.KeyDown` | script.js:97-98 | only the `Escape` key does anything, and it does exactly what `Escape` does: every modal closed, the form untouched |
| `ModalLifecycle.EscapeLoop` | script.js:99-101 | the `forEach` loop over the modals keeps the page layout and the form |
| `ModalLifecycle.EscapeLoopShuts` | script.js:99-101 | the loop closes exactly the listed modals that were open when it started, whatever their order |
| `ModalLifecycle.EscapeMatchesForEach` | script.js:97-103 | for every document order listing each modal once, the loop as written ends in the same page as closing all open modals |
| `Session.Step` | script.js:75-146 | no listener changes the page layout, and only a submission writes storage |
| `Session.InitialIsConsistent` | script.js:51-54 | the page as served, with all modals closed and hidden, satisfies the invariant |
| `Session.StepKeepsConsistent` | script.js:57-73 | every listener keeps `aria-hidden` equal to not `is-open`, and keeps the body locked only while some modal is open |
| `Session.RunKeepsConsistent` | script.js:57-73 | the same holds after any sequence of events |
| `Session.StepKeepsSaved` | script.js:143 | once storage holds a non-empty email, no event removes or empties it |
| `Session.RunKeepsSaved` | script.js:143 | the same holds after any sequence of events |
| `Session.SavedShowsSuccess` | script.js:122-126 | with a non-empty email stored, opening the waitlist modal after any events shows success |
| `Session.NoResubmission` | script.js:143-148 | after an accepted submission, any later events (closing the modal included) followed by reopening it end in the success view |
| `Session.EmptyStoredEmailIsAbsent` | script.js:123-131 | a stored empty string is treated as no sign-up: reopening shows the form, reset |
| `Session.ScrollLockIsShared` | script.js:71 | closing one of two open modals releases the scroll lock while the other stays open |
| `Session.LastActiveIsShared` | script.js:55-58 | for any two modals, opening the second over the first overwrites `lastActive`; taking `focus()` to always succeed, closing both leaves focus on the first modal's first control, not on the element that opened it |

## Left out

- `initSmoothScroll` (script.js:1-15): only calls `scrollIntoView` and `history.replaceState`, browser effects with no logic to state.
- `initMobileCta` (script.js:17-38): driven by `IntersectionObserver` geometry and root margins.
- `initImageFallbacks` (script.js:40-49): a single class toggle on an asynchronous image load error.
- The `DOMContentLoaded` bootstrap and listener registration (script.js:151-157): the model takes the wired page as its starting point; `Dom.Wired` records whether the form's guard at script.js:113 found all five elements.
- The focus target query (script.js:62) is a fixed per-modal `firstFocusable`; `focus()` is modelled as setting `document.activeElement`, assuming the element accepts focus.
- The `modal:open` custom event (script.js:64, 148) is a direct call to `SyncState`; it does not bubble, so only the waitlist modal's own listener runs.
- `closest('.modal')` is the `enclosing` parameter of `CloseButton`; the click target is the `target` parameter of `BackdropClick`.
- Modals are identified by their element id: a modal without an id, duplicate ids, and `data-modal-open` naming an element that is not a modal are not modelled.
- `localStorage` is a map held in the page; quota errors and storage shared with other tabs are not modelled.
- The success paragraph's fixed text "You're on the list." (script.js:126, 145) carries no behaviour and is not modelled.
- The browser's own form submission when the handler is not installed is not modelled: `Submit` leaves the page unchanged then.
- Lone surrogates: a field value may hold an unpaired UTF-16 surrogate, which `[^\s@]` accepts and the script would store, but a Dafny string of Unicode scalar values cannot hold one; such values are not modelled.
- Focus moves made by the visitor (Tab, clicking a control) are not events of `Session.Event`; `document.activeElement` changes only through opening and closing, so runs reach fewer focus states than a browser does. No proved property depends on where focus starts.
- The default value `form.reset()` restores comes from the page markup, which is not part of this model; it is the `defaultInput` field.
