/**
  The page as a whole: every listener `initModals` and `initWaitlistForm`
  install, as one event type, and the properties that hold over any run of
  events — the attribute/class agreement and scroll-lock invariant, and the
  persistence of a sign-up across closing and reopening the waitlist modal.
 */
module Session {
  import opened Wrappers
  import opened Whitespace
  import opened EmailPattern
  import opened Dom
  import opened WaitlistForm
  import opened ModalLifecycle

  /** What the visitor does. `Edit` stands for typing into the email field,
      which no handler observes but which decides what a submission reads. */
  datatype Event =
    | OpenClick(targetId: ModalId)
    | CloseClick(enclosing: Option<ModalId>)
    | ModalClick(modal: ModalId, target: ElementId)
    | KeyPress(key: string)
    | SubmitForm
    | Edit(text: string)

  /** Dispatches one event to the listener that handles it. A click reaching
      an element that is not a modal has no listener. */
  function Step(p: Page, e: Event): (r: Page)
    ensures SameLayout(p, r)
    ensures !e.SubmitForm? ==> r.storage == p.storage
  {
    match e
    case OpenClick(id) => Open(p, id)
    case CloseClick(enclosing) => CloseButton(p, enclosing)
    case ModalClick(m, target) => if m in p.modals then BackdropClick(p, m, target) else p
    case KeyPress(key) => KeyDown(p, key)
    case SubmitForm => Submit(p)
    case Edit(text) => p.(input := text)
  }

  /** The page after the events `es`, in order. */
  function Run(p: Page, es: seq<Event>): (r: Page)
    ensures SameLayout(p, r)
    decreases |es|
  {
    if es == [] then p else Run(Step(p, es[0]), es[1..])
  }

  /** `aria-hidden` agrees with `is-open` on every modal, and the body is
      scroll-locked only while some modal is open. */
  predicate Consistent(p: Page) {
    && (forall k | k in p.modals :: p.modals[k].ariaHidden == !p.modals[k].isOpen)
    && (p.noScroll ==> OpenSet(p) != {})
  }

  /** The page as served: every modal closed and hidden, nothing locked. */
  predicate Initial(p: Page) {
    && (forall k | k in p.modals :: !p.modals[k].isOpen && p.modals[k].ariaHidden)
    && !p.noScroll
    && p.lastActive.None?
  }

  lemma InitialIsConsistent(p: Page)
    requires Initial(p)
    ensures Consistent(p)
  {
  }

  lemma OpenKeepsConsistent(p: Page, id: ModalId)
    requires Consistent(p)
    ensures Consistent(Open(p, id))
  {
    if id in p.modals {
      assert id in OpenSet(Open(p, id));
    }
  }

  lemma ShutKeepsConsistent(p: Page, ks: set<ModalId>)
    requires Consistent(p) && ks <= p.modals.Keys
    ensures Consistent(Shut(p, ks))
  {
  }

  /** Pages that differ only in the form and storage are equally consistent. */
  lemma FormChangeKeepsConsistent(p: Page, r: Page)
    requires Consistent(p) && p.modals.Keys == r.modals.Keys && r.noScroll == p.noScroll
    requires forall k | k in p.modals ::
      r.modals[k].isOpen == p.modals[k].isOpen && r.modals[k].ariaHidden == p.modals[k].ariaHidden
    ensures Consistent(r)
  {
    if p.noScroll {
      var k :| k in OpenSet(p);
      assert k in OpenSet(r);
    }
  }

  lemma StepKeepsConsistent(p: Page, e: Event)
    requires Consistent(p)
    ensures Consistent(Step(p, e))
  {
    match e
    case OpenClick(id) =>
      OpenKeepsConsistent(p, id);
    case CloseClick(enclosing) =>
      if enclosing.Some? && enclosing.value in p.modals {
        ShutKeepsConsistent(p, {enclosing.value});
      }
    case ModalClick(m, target) =>
      if m in p.modals && target == m {
        ShutKeepsConsistent(p, {m});
      }
    case KeyPress(key) =>
      ShutKeepsConsistent(p, OpenSet(p));
    case SubmitForm =>
      FormChangeKeepsConsistent(p, Submit(p));
    case Edit(text) =>
      FormChangeKeepsConsistent(p, Step(p, e));
  }

  /** Every page reachable from a consistent one is consistent. */
  lemma {:induction false} RunKeepsConsistent(p: Page, es: seq<Event>)
    requires Consistent(p)
    ensures Consistent(Run(p, es))
    decreases |es|
  {
    if es != [] {
      StepKeepsConsistent(p, es[0]);
      RunKeepsConsistent(Step(p, es[0]), es[1..]);
    }
  }

  /** A truthy stored email stays truthy: only a submission writes the key,
      and only with an accepted, hence non-empty, address. */
  lemma StepKeepsSaved(p: Page, e: Event)
    requires Saved(p)
    ensures Saved(Step(p, e))
  {
    if e.SubmitForm? && Wired(p) {
      SubmitSaves(p);
    }
  }

  lemma {:induction false} RunKeepsSaved(p: Page, es: seq<Event>)
    requires Saved(p)
    ensures Saved(Run(p, es))
    decreases |es|
  {
    if es != [] {
      StepKeepsSaved(p, es[0]);
      RunKeepsSaved(Step(p, es[0]), es[1..]);
    }
  }

  /** Once an email is saved, whatever happens next, reopening the waitlist
      modal shows the success view. */
  lemma SavedShowsSuccess(p: Page, es: seq<Event>)
    requires Wired(p) && Saved(p)
    ensures Open(Run(p, es), WaitlistId).modals[WaitlistId].isSuccess
  {
    RunKeepsSaved(p, es);
  }

  /** After an accepted submission no resubmission is needed: closing the
      modal, any further events, and reopening it end in the success view. */
  lemma NoResubmission(p: Page, es: seq<Event>)
    requires Wired(p)
    ensures RegexMatch(Trim(p.input)) ==>
      Step(Run(Submit(p), es), OpenClick(WaitlistId)).modals[WaitlistId].isSuccess
  {
    SubmitSaves(p);
    if RegexMatch(Trim(p.input)) {
      SavedShowsSuccess(Submit(p), es);
    }
  }

  /** The sign-up check tests truthiness: a stored empty string counts as no
      sign-up, so opening the modal resets the form. */
  lemma EmptyStoredEmailIsAbsent(p: Page)
    requires Wired(p) && Stored(p) == Some("")
    ensures !Open(p, WaitlistId).modals[WaitlistId].isSuccess
    ensures Open(p, WaitlistId).input == p.defaultInput
  {
  }

  /** The body has one scroll lock for all modals: closing one of two open
      modals releases it while the other stays open. */
  lemma ScrollLockIsShared(p: Page, m: ModalId, n: ModalId)
    requires m in p.modals && n in p.modals && m != n && p.modals[n].isOpen
    ensures Close(p, m).modals[n].isOpen && !Close(p, m).noScroll
  {
  }

  /** `lastActive` is one variable for all modals: opening `b` over `a`
      overwrites it with the focus inside `a`, so closing both leaves focus on
      `a`'s first control, not on the element that opened `a`. */
  lemma LastActiveIsShared(p: Page, a: ModalId, b: ModalId)
    requires a in p.modals && b in p.modals && a != b
    requires p.modals[a].firstFocusable.Some?
    ensures Close(Close(Open(Open(p, a), b), b), a).active == p.modals[a].firstFocusable
  {
    var p1 := Open(p, a);
    assert p1.active == p.modals[a].firstFocusable;
    var p2 := Open(p1, b);
    assert p2.lastActive == p.modals[a].firstFocusable;
  }
}
