/** The modal registry of js/modal.js: the `modals` map (only each entry's
    `isOpen` flag is kept), `activeModal`, `previousFocus`, the element that
    has the focus and the `modal:opened` / `modal:closed` events dispatched.
    Each operation is a function from the old state to the new one; the
    class `ModalManager` performs it in place and is proved against that
    function. Elements are named by numbers. */
module Modal {
  import opened JsBuiltins

  type ElementId = nat

  datatype ModalEvent = Opened(id: string) | Closed(id: string)

  /** `focused` is `document.activeElement` (None for null). */
  datatype ModalState = ModalState(
    modals: map<string, bool>,
    activeModal: Option<string>,
    previousFocus: Option<ElementId>,
    focused: Option<ElementId>,
    events: seq<ModalEvent>)

  /** `isModalOpen(id)`: false for an id that was never registered. */
  predicate IsOpen(s: ModalState, id: string) {
    id in s.modals && s.modals[id]
  }

  /** `hasActiveModal()`. */
  predicate HasActive(s: ModalState) { s.activeModal.Some? }

  /** Every open modal is the active one, so at most one is open, and the
      active id is registered. */
  predicate Valid(s: ModalState) {
    && (forall id :: id in s.modals && s.modals[id] ==> s.activeModal == Some(id))
    && (s.activeModal.Some? ==> s.activeModal.value in s.modals)
  }

  /** The constructor, where `bindElements` registers "promo" when the
      promotion modal, its button and its close button all exist. */
  function Initial(hasPromo: bool, focus: Option<ElementId>): ModalState {
    ModalState(if hasPromo then map["promo" := false] else map[], None, None, focus, [])
  }

  /** `registerModal(id, elements)`: nothing without a modal element,
      otherwise an entry that is not open (replacing any earlier one). */
  function Register(s: ModalState, id: string, hasModal: bool): ModalState {
    if hasModal then s.(modals := s.modals[id := false]) else s
  }

  /** `closeModal(id)`: an unknown id throws and changes nothing; otherwise
      the modal is closed, the active id cleared if it was this one, the
      saved focus restored once and the event dispatched. */
  function Close(s: ModalState, id: string): ModalState {
    if id !in s.modals then s
    else
      ModalState(
        s.modals[id := false],
        if s.activeModal == Some(id) then None else s.activeModal,
        None,
        if s.previousFocus.Some? then s.previousFocus else s.focused,
        s.events + [Closed(id)])
  }

  /** The part of `openModal(id)` after the active modal is closed: save the
      focus, open, make active, move the focus to the modal's first
      focusable element (`trapFocus`) and dispatch the event. */
  function OpenRegistered(s: ModalState, id: string, firstFocusable: Option<ElementId>): ModalState {
    ModalState(
      s.modals[id := true],
      Some(id),
      s.focused,
      if firstFocusable.Some? then firstFocusable else s.focused,
      s.events + [Opened(id)])
  }

  /** `openModal(id)`, closing the active modal whenever there is one. */
  function Open(s: ModalState, id: string, firstFocusable: Option<ElementId>): ModalState {
    if id !in s.modals then s
    else
      var t := if s.activeModal.Some? then Close(s, s.activeModal.value) else s;
      OpenRegistered(t, id, firstFocusable)
  }

  /** `closeActiveModal()`. */
  function CloseActive(s: ModalState): ModalState {
    if s.activeModal.Some? then Close(s, s.activeModal.value) else s
  }

  /** `handleGlobalKeydown(e)`: Escape closes the active modal. */
  function Keydown(s: ModalState, key: string): ModalState {
    if key == "Escape" && s.activeModal.Some? then CloseActive(s) else s
  }

  /** `toggleModal(id)`. */
  function Toggle(s: ModalState, id: string, firstFocusable: Option<ElementId>): ModalState {
    if id !in s.modals then s
    else if s.modals[id] then Close(s, id)
    else Open(s, id, firstFocusable)
  }

  /** `if (this.activeModal)` on an id, as written: the empty id is falsy. */
  predicate Truthy(active: Option<string>) { active.Some? && active.value != "" }

  /** `openModal(id)` as written: the active modal is closed only when its
      id is truthy. */
  function OpenAsWritten(s: ModalState, id: string, firstFocusable: Option<ElementId>): ModalState {
    if id !in s.modals then s
    else
      var t := if Truthy(s.activeModal) then Close(s, s.activeModal.value) else s;
      OpenRegistered(t, id, firstFocusable)
  }

  /** `closeActiveModal()` as written. */
  function CloseActiveAsWritten(s: ModalState): ModalState {
    if Truthy(s.activeModal) then Close(s, s.activeModal.value) else s
  }

  // ---------------------------------------------------------------------
  // Properties

  /** At most one modal is open. */
  lemma AtMostOneOpen(s: ModalState, a: string, b: string)
    requires Valid(s) && IsOpen(s, a) && IsOpen(s, b)
    ensures a == b
  {
    assert s.activeModal == Some(a) && s.activeModal == Some(b);
  }

  lemma InitialValid(hasPromo: bool, focus: Option<ElementId>)
    ensures Valid(Initial(hasPromo, focus)) && !HasActive(Initial(hasPromo, focus))
    ensures forall id :: !IsOpen(Initial(hasPromo, focus), id)
  {
  }

  lemma RegisterValid(s: ModalState, id: string, hasModal: bool)
    requires Valid(s)
    ensures Valid(Register(s, id, hasModal))
    ensures !hasModal ==> Register(s, id, hasModal) == s
    ensures hasModal ==> id in Register(s, id, hasModal).modals && !IsOpen(Register(s, id, hasModal), id)
  {
  }

  /** Closing keeps the invariant and closes `id`; the active id is cleared
      exactly when it was `id`; the saved focus is restored and forgotten. */
  lemma CloseCases(s: ModalState, id: string)
    requires Valid(s)
    ensures Valid(Close(s, id))
    ensures id !in s.modals ==> Close(s, id) == s
    ensures id in s.modals ==>
      var r := Close(s, id);
      && !IsOpen(r, id)
      && (r.activeModal == None <==> s.activeModal == Some(id) || s.activeModal == None)
      && r.previousFocus == None
      && (s.previousFocus.Some? ==> r.focused == s.previousFocus)
      && r.events == s.events + [Closed(id)]
  {
  }

  /** Focus is restored once: a second close leaves the focus alone. */
  lemma FocusRestoredOnce(s: ModalState, a: string, b: string)
    requires a in s.modals
    ensures Close(Close(s, a), b).focused == Close(s, a).focused
  {
  }

  /** Opening a registered id closes whatever was active, then leaves `id`
      the only open modal and the active one. The focus saved is the
      element focused once that close has restored its own saved focus,
      and the focus moves to the modal's first focusable element, if any. */
  lemma {:induction false} OpenCases(s: ModalState, id: string, first: Option<ElementId>)
    requires Valid(s)
    ensures Valid(Open(s, id, first))
    ensures id !in s.modals ==> Open(s, id, first) == s
    ensures id in s.modals ==>
      var r := Open(s, id, first);
      && r.activeModal == Some(id) && IsOpen(r, id)
      && (forall other :: other != id ==> !IsOpen(r, other))
      && r.events == s.events + (if s.activeModal.Some? then [Closed(s.activeModal.value)] else []) + [Opened(id)]
      && r.previousFocus == (if s.activeModal.Some? && s.previousFocus.Some? then s.previousFocus else s.focused)
      && r.focused == (if first.Some? then first else r.previousFocus)
  {
    if id in s.modals {
      var t := if s.activeModal.Some? then Close(s, s.activeModal.value) else s;
      CloseCases(s, if s.activeModal.Some? then s.activeModal.value else id);
      assert t.activeModal == None;
      assert forall other :: !IsOpen(t, other);
    }
  }

  lemma CloseActiveCases(s: ModalState, key: string)
    requires Valid(s)
    ensures Valid(CloseActive(s)) && !HasActive(CloseActive(s))
    ensures forall id :: !IsOpen(CloseActive(s), id)
    ensures key != "Escape" ==> Keydown(s, key) == s
    ensures key == "Escape" ==> Keydown(s, key) == CloseActive(s)
  {
    if s.activeModal.Some? {
      CloseCases(s, s.activeModal.value);
    }
  }

  /** Closing a modal just opened gives the focus back to the element that
      had it when it opened (when there was one). */
  lemma OpenThenClose(s: ModalState, id: string, first: Option<ElementId>)
    requires Valid(s) && id in s.modals
    ensures var r := Open(s, id, first);
      r.previousFocus.Some? ==> Close(r, id).focused == r.previousFocus
    ensures s.focused.Some? ==>
      Close(Open(s, id, first), id).focused == (if s.activeModal.Some? && s.previousFocus.Some? then s.previousFocus else s.focused)
  {
    OpenCases(s, id, first);
  }

  /** Toggling flips a registered modal and ignores any other id. */
  lemma ToggleCases(s: ModalState, id: string, first: Option<ElementId>)
    requires Valid(s)
    ensures Valid(Toggle(s, id, first))
    ensures id !in s.modals ==> Toggle(s, id, first) == s
    ensures id in s.modals ==> (IsOpen(Toggle(s, id, first), id) <==> !IsOpen(s, id))
  {
    CloseCases(s, id);
    OpenCases(s, id, first);
  }

  /** As written, a modal registered under the empty id stays open when
      another one opens, and closing the active modal misses it. */
  lemma EmptyIdNeverClosed()
    ensures var s := ModalState(map["" := true, "b" := false], Some(""), None, None, []);
      && Valid(s)
      && IsOpen(OpenAsWritten(s, "b", None), "")
      && IsOpen(OpenAsWritten(s, "b", None), "b")
      && !Valid(OpenAsWritten(s, "b", None))
      && IsOpen(CloseActiveAsWritten(s), "")
      && !IsOpen(Open(s, "b", None), "")
  {
    var s := ModalState(map["" := true, "b" := false], Some(""), None, None, []);
    assert IsOpen(OpenAsWritten(s, "b", None), "") && IsOpen(OpenAsWritten(s, "b", None), "b");
  }

  class ModalManager {
    var modals: map<string, bool>
    var activeModal: Option<string>
    var previousFocus: Option<ElementId>
    var focused: Option<ElementId>
    var events: seq<ModalEvent>

    function State(): ModalState
      reads this
    {
      ModalState(modals, activeModal, previousFocus, focused, events)
    }

    constructor (hasPromo: bool, focus: Option<ElementId>)
      ensures State() == Initial(hasPromo, focus) && Valid(State())
    {
      modals := if hasPromo then map["promo" := false] else map[];
      activeModal := None;
      previousFocus := None;
      focused := focus;
      events := [];
      InitialValid(hasPromo, focus);
    }

    method RegisterModal(id: string, hasModal: bool)
      modifies this`modals
      ensures State() == Register(old(State()), id, hasModal)
    {
      if !hasModal {
        return;
      }
      modals := modals[id := false];
    }

    method CloseModal(id: string)
      modifies this
      ensures State() == Close(old(State()), id)
    {
      if id !in modals {
        return;
      }
      modals := modals[id := false];
      if activeModal == Some(id) {
        activeModal := None;
      }
      if previousFocus.Some? {
        focused := previousFocus;
        previousFocus := None;
      }
      events := events + [Closed(id)];
    }

    method OpenModal(id: string, firstFocusable: Option<ElementId>)
      modifies this
      ensures State() == Open(old(State()), id, firstFocusable)
    {
      if id !in modals {
        return;
      }
      if activeModal.Some? {
        CloseModal(activeModal.value);
      }
      previousFocus := focused;
      modals := modals[id := true];
      activeModal := Some(id);
      if firstFocusable.Some? {
        focused := firstFocusable;
      }
      events := events + [Opened(id)];
    }

    method CloseActiveModal()
      modifies this
      ensures State() == CloseActive(old(State()))
    {
      if activeModal.Some? {
        CloseModal(activeModal.value);
      }
    }

    method HandleGlobalKeydown(key: string)
      modifies this
      ensures State() == Keydown(old(State()), key)
    {
      if key == "Escape" && activeModal.Some? {
        CloseActiveModal();
      }
    }

    predicate IsModalOpen(id: string)
      reads this
    {
      IsOpen(State(), id)
    }

    predicate HasActiveModal()
      reads this
    {
      HasActive(State())
    }

    function GetActiveModal(): Option<string>
      reads this
    {
      activeModal
    }

    method ToggleModal(id: string, firstFocusable: Option<ElementId>)
      modifies this
      ensures State() == Toggle(old(State()), id, firstFocusable)
    {
      if id in modals {
        if modals[id] {
          CloseModal(id);
        } else {
          OpenModal(id, firstFocusable);
        }
      }
    }
  }
}
