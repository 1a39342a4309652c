/**
  The page state the modal and waitlist handlers read and write, abstracted
  from the DOM into one immutable record: per modal the `is-open` and
  `is-success` classes and the `aria-hidden` attribute; the body's
  `no-scroll` class; the focused element and the `lastActive` variable shared
  by every modal; the waitlist form's field value and message text; and the
  browser's local storage.
 */
module Dom {
  import opened Wrappers

  type ElementId = string
  type ModalId = ElementId

  /** Id of the modal that holds the waitlist form. */
  const WaitlistId: ModalId := "waitlist-modal"
  /** Local-storage key under which the waitlist email is kept. */
  const StorageKey: string := "waitlistEmail"
  /** Text shown when the submitted address is rejected. */
  const InvalidMessage: string := "Please enter a valid email."

  /** One `.modal` element. `firstFocusable` is the first control matched by
      `input, button, [href], [tabindex]:not([tabindex="-1"])` inside it, taken
      as a fixed property of the markup. */
  datatype Modal = Modal(
    isOpen: bool,
    isSuccess: bool,
    ariaHidden: bool,
    firstFocusable: Option<ElementId>)

  /** The page. `modals` holds every `.modal` element by id; `formParts` says
      whether the form, message, success box and email field all exist;
      `defaultInput` is the value `form.reset()` restores to the email field
      and `input` its current value; `active` is `document.activeElement`. */
  datatype Page = Page(
    modals: map<ModalId, Modal>,
    formParts: bool,
    defaultInput: string,
    input: string,
    message: string,
    noScroll: bool,
    active: Option<ElementId>,
    lastActive: Option<ElementId>,
    storage: map<string, string>)

  /** The waitlist handlers are installed only when the modal and all four
      form parts were found at start-up. */
  predicate Wired(p: Page) {
    WaitlistId in p.modals && p.formParts
  }

  /** The value stored under the waitlist key, if any. */
  function Stored(p: Page): Option<string> {
    if StorageKey in p.storage then Some(p.storage[StorageKey]) else None
  }

  /** The stored value is truthy: present and not the empty string. */
  predicate Saved(p: Page) {
    Stored(p).Some? && Stored(p).value != ""
  }

  /** The markup no handler changes: which modals exist, their focus
      targets, the form parts and the field's default value. */
  predicate SameLayout(p: Page, q: Page) {
    && p.modals.Keys == q.modals.Keys
    && (forall k | k in p.modals :: q.modals[k].firstFocusable == p.modals[k].firstFocusable)
    && p.formParts == q.formParts
    && p.defaultInput == q.defaultInput
  }

  /** Every modal outside `ks` is left exactly as it was. */
  predicate SameModalsOutside(p: Page, q: Page, ks: set<ModalId>) {
    forall k | k in p.modals && k !in ks :: k in q.modals && q.modals[k] == p.modals[k]
  }

  /** Focus, the scroll lock and `lastActive` are left as they were. */
  predicate SameFocusAndScroll(p: Page, q: Page) {
    p.active == q.active && p.lastActive == q.lastActive && p.noScroll == q.noScroll
  }

  /** The form's field, its message and the storage are left as they were. */
  predicate SameForm(p: Page, q: Page) {
    p.input == q.input && p.message == q.message && p.storage == q.storage
  }
}
