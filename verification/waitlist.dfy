/**
  `initWaitlistForm`: the submit handler that validates and stores the email
  and `syncState`, run whenever the waitlist modal opens, that re-reads the
  stored email to choose between the success view and a fresh form.
 */
module WaitlistForm {
  import opened Wrappers
  import opened Whitespace
  import opened EmailPattern
  import opened Dom

  /** `showSuccess`: the waitlist modal gets `is-success` and the message is
      emptied. */
  function ShowSuccess(p: Page): (r: Page)
    requires WaitlistId in p.modals
    ensures SameLayout(p, r) && SameModalsOutside(p, r, {WaitlistId})
    ensures r.modals[WaitlistId].isSuccess && r.message == ""
    ensures r.modals[WaitlistId].isOpen == p.modals[WaitlistId].isOpen
    ensures r.modals[WaitlistId].ariaHidden == p.modals[WaitlistId].ariaHidden
    ensures SameFocusAndScroll(p, r) && r.input == p.input && r.storage == p.storage
  {
    var m := p.modals[WaitlistId];
    p.(modals := p.modals[WaitlistId := m.(isSuccess := true)], message := "")
  }

  /** `syncState`: a truthy stored email forces the success view; otherwise
      `is-success` is removed, the message emptied and the form reset. */
  function SyncState(p: Page): (r: Page)
    requires Wired(p)
    ensures SameLayout(p, r) && SameModalsOutside(p, r, {WaitlistId})
    ensures r.modals[WaitlistId].isSuccess <==> Saved(p)
    ensures r.modals[WaitlistId].isOpen == p.modals[WaitlistId].isOpen
    ensures r.modals[WaitlistId].ariaHidden == p.modals[WaitlistId].ariaHidden
    ensures r.message == ""
    ensures Saved(p) ==> r.input == p.input
    ensures !Saved(p) ==> r.input == p.defaultInput
    ensures SameFocusAndScroll(p, r) && r.storage == p.storage
  {
    if Saved(p) then
      ShowSuccess(p)
    else
      var m := p.modals[WaitlistId];
      p.(modals := p.modals[WaitlistId := m.(isSuccess := false)],
         message := "",
         input := p.defaultInput)
  }

  /** Stores the address under the waitlist key, then shows the success
      view. */
  function StoreAndShow(p: Page, email: string): (r: Page)
    requires WaitlistId in p.modals
    ensures SameLayout(p, r) && SameFocusAndScroll(p, r) && r.input == p.input
    ensures forall k | k in p.modals ::
      r.modals[k].isOpen == p.modals[k].isOpen && r.modals[k].ariaHidden == p.modals[k].ariaHidden
    ensures Stored(r) == Some(email)
    ensures r.storage.Keys == p.storage.Keys + {StorageKey}
    ensures forall k | k in p.storage && k != StorageKey :: r.storage[k] == p.storage[k]
    ensures r.modals[WaitlistId].isSuccess && r.message == ""
    ensures SameModalsOutside(p, r, {WaitlistId})
  {
    ShowSuccess(p.(storage := p.storage[StorageKey := email]))
  }

  /** The submit handler: the field's value is trimmed and checked against
      the pattern. A rejected address only sets the error message; an
      accepted one is stored under `'waitlistEmail'` and the success view is
      shown. Without the handler (`Wired` false) nothing in the model changes. */
  function Submit(p: Page): (r: Page)
    ensures SameLayout(p, r) && SameFocusAndScroll(p, r) && r.input == p.input
    ensures forall k | k in p.modals ::
      r.modals[k].isOpen == p.modals[k].isOpen && r.modals[k].ariaHidden == p.modals[k].ariaHidden
    ensures !Wired(p) ==> r == p
    ensures Wired(p) && !RegexMatch(Trim(p.input)) ==>
      && r.message == InvalidMessage
      && r.storage == p.storage
      && r.modals == p.modals
    ensures Wired(p) && RegexMatch(Trim(p.input)) ==>
      && Stored(r) == Some(Trim(p.input))
      && r.storage.Keys == p.storage.Keys + {StorageKey}
      && (forall k | k in p.storage && k != StorageKey :: r.storage[k] == p.storage[k])
      && r.modals[WaitlistId].isSuccess
      && r.message == ""
      && SameModalsOutside(p, r, {WaitlistId})
  {
    if !Wired(p) then
      p
    else if !AcceptsInput(p.input) then
      p.(message := InvalidMessage)
    else
      StoreAndShow(p, Trim(p.input))
  }

  /** A successful submission leaves a truthy email in storage. */
  lemma SubmitSaves(p: Page)
    requires Wired(p)
    ensures RegexMatch(Trim(p.input)) ==> Saved(Submit(p))
  {
    if RegexMatch(Trim(p.input)) {
      RegexMatchIffValid(Trim(p.input));
      ValidEmailLength(Trim(p.input));
    }
  }
}
