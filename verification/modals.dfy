/**
  `initModals`: opening a modal by id, closing it (close button, backdrop
  click, Escape), with the body scroll lock and the focus hand-off. Opening
  the waitlist modal dispatches `modal:open`, which runs the waitlist form's
  `syncState`; here that dispatch is a direct call.
 */
module ModalLifecycle {
  import opened Wrappers
  import opened Dom
  import opened WaitlistForm

  /** A modal after `closeModal`: `is-open` and `is-success` removed,
      `aria-hidden` set. */
  function Closed(m: Modal): (c: Modal)
    ensures !c.isOpen && !c.isSuccess && c.ariaHidden
    ensures c.firstFocusable == m.firstFocusable
  {
    m.(isOpen := false, isSuccess := false, ariaHidden := true)
  }

  /** Where focus ends up after a close: on the element remembered in
      `lastActive` when there is one, otherwise where it already was. */
  function RestoredFocus(p: Page): Option<ElementId> {
    if p.lastActive.Some? then p.lastActive else p.active
  }

  /** The modals that currently carry `is-open`. */
  function OpenSet(p: Page): set<ModalId> {
    set k | k in p.modals && p.modals[k].isOpen
  }

  /** `closeModal` applied to every modal of `ks`. Each call has the same
      page-wide effect (scroll lock released, focus sent back to
      `lastActive`, which closing never changes), so the order of the calls
      does not matter. */
  function Shut(p: Page, ks: set<ModalId>): (r: Page)
    requires ks <= p.modals.Keys
    ensures SameLayout(p, r) && SameForm(p, r) && r.lastActive == p.lastActive
    ensures SameModalsOutside(p, r, ks)
    ensures forall k | k in ks :: !r.modals[k].isOpen && !r.modals[k].isSuccess && r.modals[k].ariaHidden
    ensures ks == {} ==> r == p
    ensures ks != {} ==> !r.noScroll && r.active == RestoredFocus(p)
  {
    if ks == {} then
      p
    else
      p.(modals := map k | k in p.modals :: if k in ks then Closed(p.modals[k]) else p.modals[k],
         noScroll := false,
         active := RestoredFocus(p))
  }

  /** `closeModal(modal)`. */
  function Close(p: Page, m: ModalId): (r: Page)
    requires m in p.modals
    ensures SameLayout(p, r) && SameForm(p, r) && r.lastActive == p.lastActive
    ensures SameModalsOutside(p, r, {m})
    ensures !r.modals[m].isOpen && !r.modals[m].isSuccess && r.modals[m].ariaHidden
    ensures !r.noScroll
    ensures r.active == (if p.lastActive.Some? then p.lastActive else p.active)
  {
    Shut(p, {m})
  }

  /** The body of `openModal` before its dispatch: remember the focus in
      `lastActive`, show the modal, lock the body, focus the first control. */
  function Reveal(p: Page, id: ModalId): (r: Page)
    requires id in p.modals
    ensures SameLayout(p, r) && SameForm(p, r) && SameModalsOutside(p, r, {id})
    ensures r.modals[id].isOpen && !r.modals[id].ariaHidden
    ensures r.modals[id].isSuccess == p.modals[id].isSuccess
    ensures r.noScroll && r.lastActive == p.active
    ensures r.active == (if p.modals[id].firstFocusable.Some? then p.modals[id].firstFocusable else p.active)
  {
    var m := p.modals[id];
    p.(lastActive := p.active,
       modals := p.modals[id := m.(isOpen := true, ariaHidden := false)],
       noScroll := true,
       active := if m.firstFocusable.Some? then m.firstFocusable else p.active)
  }

  /** `openModal(modal)` for the element `getElementById(id)`, followed by
      the `modal:open` dispatch; an id naming no modal leaves the page alone.
      The focus recorded in `lastActive` is the one before opening, and focus
      moves to the modal's first focusable control when it has one. */
  function Open(p: Page, id: ModalId): (r: Page)
    ensures SameLayout(p, r) && r.storage == p.storage
    ensures id !in p.modals ==> r == p
    ensures id in p.modals ==>
      && SameModalsOutside(p, r, {id})
      && r.modals[id].isOpen && !r.modals[id].ariaHidden
      && r.noScroll
      && r.lastActive == p.active
      && r.active == (if p.modals[id].firstFocusable.Some? then p.modals[id].firstFocusable else p.active)
    ensures id in p.modals && id == WaitlistId && Wired(p) ==>
      && (r.modals[id].isSuccess <==> Saved(p))
      && r.message == ""
      && (!Saved(p) ==> r.input == p.defaultInput)
      && (Saved(p) ==> r.input == p.input)
    ensures id in p.modals && !(id == WaitlistId && Wired(p)) ==>
      && r.modals[id].isSuccess == p.modals[id].isSuccess
      && SameForm(p, r)
  {
    if id !in p.modals then
      p
    else
      var q := Reveal(p, id);
      if id == WaitlistId && Wired(q) then SyncState(q) else q
  }

  /** A `[data-modal-close]` button: it closes the modal `closest('.modal')`
      finds around it, and does nothing when it sits in no modal. */
  function CloseButton(p: Page, enclosing: Option<ModalId>): (r: Page)
    ensures SameLayout(p, r) && SameForm(p, r)
    ensures enclosing.None? || enclosing.value !in p.modals ==> r == p
    ensures enclosing.Some? && enclosing.value in p.modals ==>
      && r == Close(p, enclosing.value)
      && !r.modals[enclosing.value].isOpen && !r.modals[enclosing.value].isSuccess
      && r.modals[enclosing.value].ariaHidden
      && SameModalsOutside(p, r, {enclosing.value})
      && !r.noScroll && r.active == RestoredFocus(p)
  {
    if enclosing.Some? && enclosing.value in p.modals then Close(p, enclosing.value) else p
  }

  /** A click that reaches modal `m`: it closes `m` only when the click
      landed on the modal element itself (its backdrop), not on its content. */
  function BackdropClick(p: Page, m: ModalId, target: ElementId): (r: Page)
    requires m in p.modals
    ensures SameLayout(p, r) && SameForm(p, r)
    ensures target != m ==> r == p
    ensures target == m ==>
      && r == Close(p, m)
      && !r.modals[m].isOpen && !r.modals[m].isSuccess && r.modals[m].ariaHidden
      && SameModalsOutside(p, r, {m})
      && !r.noScroll && r.active == RestoredFocus(p)
  {
    if target == m then Close(p, m) else p
  }

  /** Escape closes every open modal and no other. */
  function Escape(p: Page): (r: Page)
    ensures SameLayout(p, r) && SameForm(p, r)
    ensures forall k | k in r.modals :: !r.modals[k].isOpen
    ensures forall k | k in p.modals && !p.modals[k].isOpen :: r.modals[k] == p.modals[k]
    ensures forall k | k in p.modals && p.modals[k].isOpen :: r.modals[k] == Closed(p.modals[k])
    ensures OpenSet(p) == {} ==> r == p
    ensures OpenSet(p) != {} ==> !r.noScroll && r.active == RestoredFocus(p)
    ensures r.lastActive == p.lastActive
  {
    Shut(p, OpenSet(p))
  }

  /** The `keydown` listener on the document. */
  function KeyDown(p: Page, key: string): (r: Page)
    ensures key != "Escape" ==> r == p
    ensures key == "Escape" ==> r == Escape(p) && OpenSet(r) == {} && SameForm(p, r)
  {
    if key == "Escape" then Escape(p) else p
  }

  /** The Escape handler as written: `modals.forEach` in document order,
      closing each modal that is open when its turn comes. */
  function EscapeLoop(p: Page, order: seq<ModalId>): (r: Page)
    requires forall i | 0 <= i < |order| :: order[i] in p.modals
    ensures SameLayout(p, r) && SameForm(p, r)
    decreases |order|
  {
    if order == [] then
      p
    else
      var q := if p.modals[order[0]].isOpen then Close(p, order[0]) else p;
      EscapeLoop(q, order[1..])
  }

  /** Opening a modal and closing it again closes it, releases the scroll
      lock and gives focus back to the element focused before opening. */
  lemma OpenCloseRestoresFocus(p: Page, id: ModalId)
    requires id in p.modals && p.active.Some?
    ensures Close(Open(p, id), id).active == p.active
    ensures !Close(Open(p, id), id).modals[id].isOpen && !Close(Open(p, id), id).noScroll
  {
    var q := Open(p, id);
    assert q.lastActive == p.active;
  }

  /** Closing one set of modals and then another is closing their union. */
  lemma ShutTwice(p: Page, s: set<ModalId>, t: set<ModalId>)
    requires s <= p.modals.Keys && t <= p.modals.Keys
    ensures Shut(Shut(p, s), t) == Shut(p, s + t)
  {
    if s != {} && t != {} {
      var q := Shut(p, s);
      assert Shut(q, t).modals == Shut(p, s + t).modals;
    }
  }

  /** Closing a modal twice is closing it once. */
  lemma CloseIdempotent(p: Page, m: ModalId)
    requires m in p.modals
    ensures Close(Close(p, m), m) == Close(p, m)
  {
    ShutTwice(p, {m}, {m});
    assert {m} + {m} == {m};
  }

  /** The modals of `order` that are open in `p`. */
  ghost function OpenAmong(p: Page, order: seq<ModalId>): set<ModalId> {
    set k | k in order && k in p.modals && p.modals[k].isOpen
  }

  /** Closing `k0` does not change which of the other modals are open. */
  lemma OpenAmongUnchanged(p: Page, q: Page, k0: ModalId, rest: seq<ModalId>)
    requires k0 !in rest && p.modals.Keys == q.modals.Keys
    requires SameModalsOutside(p, q, {k0})
    ensures OpenAmong(q, rest) == OpenAmong(p, rest)
  {
  }

  /** The loop closes exactly the modals of `order` that were open before it
      started: closing one modal never opens or closes another. */
  lemma {:induction false} EscapeLoopShuts(p: Page, order: seq<ModalId>)
    requires forall i | 0 <= i < |order| :: order[i] in p.modals
    requires forall i, j | 0 <= i < j < |order| :: order[i] != order[j]
    ensures EscapeLoop(p, order) == Shut(p, OpenAmong(p, order))
    decreases |order|
  {
    if order == [] {
      assert OpenAmong(p, order) == {};
    } else {
      var k0, rest := order[0], order[1..];
      var q := if p.modals[k0].isOpen then Close(p, k0) else p;
      EscapeLoopShuts(q, rest);
      assert k0 !in rest;
      OpenAmongUnchanged(p, q, k0, rest);
      if p.modals[k0].isOpen {
        ShutTwice(p, {k0}, OpenAmong(p, rest));
        assert OpenAmong(p, order) == {k0} + OpenAmong(p, rest);
      } else {
        assert OpenAmong(p, order) == OpenAmong(p, rest);
      }
    }
  }

  /** For any document order listing every modal once, the `forEach` loop
      ends in the same page as `Escape`. */
  lemma EscapeMatchesForEach(p: Page, order: seq<ModalId>)
    requires forall i, j | 0 <= i < j < |order| :: order[i] != order[j]
    requires forall k :: k in p.modals <==> k in order
    ensures EscapeLoop(p, order) == Escape(p)
  {
    EscapeLoopShuts(p, order);
    assert OpenAmong(p, order) == OpenSet(p);
  }
}
