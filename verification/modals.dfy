/** The modal dialogs of the front end: a registry of modals, each open or
    closed with a z-index, where the modal opened last sits on top and the
    Escape key closes the topmost one; and the request-details dialog as a
    small state machine over its buttons.

    `registeredModals` is an object whose keys keep their first insertion
    position, so the registry is a sequence of modals with distinct ids, and
    re-registering an id replaces its entry in place. Elements, callbacks
    and styles are left out; a missing element is a flag. */
module Modals {
  import opened Wrappers
  import Text
  import Records
  import FormatUtils

  datatype Modal = Modal(id: string, isOpen: bool, zIndex: int)

  type Registry = seq<Modal>

  const BASE_Z_INDEX := 1000

  predicate UniqueIds(reg: Registry) {
    forall i, j :: 0 <= i < j < |reg| ==> reg[i].id != reg[j].id
  }

  /** Position of the modal with the id, if it is registered. */
  function IndexOf(reg: Registry, id: string): (r: Option<nat>)
    ensures r.None? <==> forall i :: 0 <= i < |reg| ==> reg[i].id != id
    ensures r.Some? ==> r.value < |reg| && reg[r.value].id == id
  {
    if reg == [] then None
    else if reg[0].id == id then Some(0)
    else
      var rest := IndexOf(reg[1..], id);
      if rest.Some? then Some(rest.value + 1) else None
  }

  /** `registerModal(id, element)`: without an element, `null` and nothing
      registered; otherwise a closed modal at z-index 1000, in the place of
      an earlier one with the id or else last. The boolean says whether the
      API object was returned. */
  function RegisterModal(reg: Registry, id: string, elementPresent: bool): (r: (Registry, bool))
    requires UniqueIds(reg)
    ensures r.1 == elementPresent
    ensures !elementPresent ==> r.0 == reg
    ensures elementPresent ==> UniqueIds(r.0) && IndexOf(r.0, id).Some?
    ensures elementPresent ==> r.0[IndexOf(r.0, id).value] == Modal(id, false, BASE_Z_INDEX)
    ensures elementPresent ==> |reg| <= |r.0| <= |reg| + 1
    ensures elementPresent ==> forall i :: 0 <= i < |reg| && reg[i].id != id ==> r.0[i] == reg[i]
    ensures elementPresent ==> forall i :: |reg| <= i < |r.0| ==> r.0[i].id == id
  {
    if !elementPresent then (reg, false)
    else
      var m := Modal(id, false, BASE_Z_INDEX);
      match IndexOf(reg, id)
      case Some(i) =>
        var r := reg[i := m];
        assert r[i].id == id;
        (r, true)
      case None =>
        var r := reg + [m];
        assert r[|reg|].id == id;
        (r, true)
  }

  /** The z-index a modal gets when opened is one above `highest`: 999, or
      the largest z-index of an open modal if that is larger. */
  function Highest(reg: Registry): (r: int)
    ensures r >= BASE_Z_INDEX - 1
    ensures forall i :: 0 <= i < |reg| && reg[i].isOpen ==> reg[i].zIndex <= r
    ensures r == BASE_Z_INDEX - 1 || exists i :: 0 <= i < |reg| && reg[i].isOpen && reg[i].zIndex == r
  {
    if reg == [] then BASE_Z_INDEX - 1
    else
      var rest := Highest(reg[1..]);
      assert forall i :: 1 <= i < |reg| ==> reg[i] == reg[1..][i - 1];
      if reg[0].isOpen && reg[0].zIndex > rest then reg[0].zIndex else rest
  }

  /** `openModal(id)`: an unknown id changes nothing; otherwise the modal
      opens one above every open modal, itself included. */
  function OpenModal(reg: Registry, id: string): (r: Registry)
    ensures |r| == |reg| && forall i :: 0 <= i < |reg| ==> r[i].id == reg[i].id
    ensures IndexOf(reg, id).None? ==> r == reg
    ensures IndexOf(reg, id).Some? ==>
      var k := IndexOf(reg, id).value;
      r[k].isOpen && r[k].zIndex >= BASE_Z_INDEX
      && (forall j :: 0 <= j < |reg| && j != k ==> r[j] == reg[j])
      && (forall j :: 0 <= j < |reg| && j != k && r[j].isOpen ==> r[j].zIndex < r[k].zIndex)
  {
    match IndexOf(reg, id)
    case None => reg
    case Some(k) => reg[k := Modal(id, true, Highest(reg) + 1)]
  }

  /** `closeModal(id)`: only that modal closes; an unknown id changes
      nothing. */
  function CloseModal(reg: Registry, id: string): (r: Registry)
    ensures |r| == |reg|
    ensures forall i :: 0 <= i < |reg| ==>
      r[i] == if reg[i].id == id && IndexOf(reg, id) == Some(i) then reg[i].(isOpen := false) else reg[i]
  {
    match IndexOf(reg, id)
    case None => reg
    case Some(k) => reg[k := reg[k].(isOpen := false)]
  }

  /** The modal `Escape` closes: the open modals sorted by descending
      z-index with a stable sort, and the first of them. */
  function TopOpen(reg: Registry): (r: Option<nat>)
    ensures r.None? <==> forall i :: 0 <= i < |reg| ==> !reg[i].isOpen
    ensures r.Some? ==> r.value < |reg| && reg[r.value].isOpen
    ensures r.Some? ==> forall j :: 0 <= j < |reg| && reg[j].isOpen ==> reg[j].zIndex <= reg[r.value].zIndex
    ensures r.Some? ==> forall j :: 0 <= j < r.value && reg[j].isOpen ==> reg[j].zIndex < reg[r.value].zIndex
  {
    if reg == [] then None
    else
      var rest := TopOpen(reg[1..]);
      assert forall i :: 1 <= i < |reg| ==> reg[i] == reg[1..][i - 1];
      if !reg[0].isOpen then (if rest.Some? then Some(rest.value + 1) else None)
      else if rest.None? || reg[0].zIndex >= reg[1..][rest.value].zIndex then Some(0)
      else Some(rest.value + 1)
  }

  /** `handleEscapeKey`: listened to only when the module was initialised
      with `closeOnEscape`; the Escape key closes the topmost open modal,
      any other key and an empty screen change nothing. */
  function HandleEscapeKey(reg: Registry, listening: bool, key: string): (r: Registry)
    requires UniqueIds(reg)
    ensures !listening || key != "Escape" || TopOpen(reg).None? ==> r == reg
    ensures listening && key == "Escape" && TopOpen(reg).Some? ==>
      r == CloseModal(reg, reg[TopOpen(reg).value].id)
  {
    if !listening || key != "Escape" then reg
    else match TopOpen(reg)
      case None => reg
      case Some(k) => CloseModal(reg, reg[k].id)
  }

  /** Open modals never share a z-index, and every z-index is at least the
      base one. */
  predicate Stacked(reg: Registry) {
    UniqueIds(reg)
    && (forall i :: 0 <= i < |reg| ==> reg[i].zIndex >= BASE_Z_INDEX)
    && forall i, j :: 0 <= i < j < |reg| && reg[i].isOpen && reg[j].isOpen ==> reg[i].zIndex != reg[j].zIndex
  }

  /** Registering keeps the stack well formed: the new entry is closed. */
  lemma RegisterKeepsStacked(reg: Registry, id: string, present: bool)
    requires Stacked(reg)
    ensures Stacked(RegisterModal(reg, id, present).0)
  {
    if present {
      var r := RegisterModal(reg, id, present).0;
      var k := IndexOf(r, id).value;
      assert forall i :: 0 <= i < |r| && i != k ==> r[i] == reg[i] by {
        forall i | 0 <= i < |r| && i != k
          ensures r[i] == reg[i]
        {
          if i >= |reg| || reg[i].id == id { assert false; }
        }
      }
    }
  }

  /** Opening keeps the stack well formed: the opened modal is above every
      other open one. */
  lemma OpenKeepsStacked(reg: Registry, id: string)
    requires Stacked(reg)
    ensures Stacked(OpenModal(reg, id))
  {
  }

  /** Escape keeps the stack well formed. */
  lemma EscapeKeepsStacked(reg: Registry, listening: bool, key: string)
    requires Stacked(reg)
    ensures Stacked(HandleEscapeKey(reg, listening, key))
  {
    match TopOpen(reg)
    case None =>
    case Some(k) => CloseKeepsStacked(reg, reg[k].id);
  }

  /** Closing keeps the stack well formed. */
  lemma CloseKeepsStacked(reg: Registry, id: string)
    requires Stacked(reg)
    ensures Stacked(CloseModal(reg, id))
  {
    var r := CloseModal(reg, id);
    assert forall i :: 0 <= i < |r| ==> r[i].id == reg[i].id && r[i].zIndex == reg[i].zIndex;
    assert forall i :: 0 <= i < |r| && r[i].isOpen ==> reg[i].isOpen;
  }

  /** Escape right after opening a modal closes that modal, whatever else
      is open: the last one opened is the first one closed. */
  lemma EscapeClosesLastOpened(reg: Registry, id: string)
    requires UniqueIds(reg) && IndexOf(reg, id).Some?
    ensures UniqueIds(OpenModal(reg, id))
    ensures var shown := OpenModal(reg, id);
      HandleEscapeKey(shown, true, "Escape") == CloseModal(shown, id)
  {
    var shown := OpenModal(reg, id);
    var k := IndexOf(reg, id).value;
    assert UniqueIds(shown);
    var t := TopOpen(shown).value;
    if t != k {
      assert false;
    }
  }

  /** `getStatusClass` of the dialog: the class of each of the four
      statuses, and the pending one for anything else, `undefined`
      included. */
  function GetStatusClass(status: Option<string>): (r: string)
    ensures r in {FormatUtils.STATUS_PENDENTE, FormatUtils.STATUS_APROVADO, FormatUtils.STATUS_RECUSADO, FormatUtils.STATUS_REVISAO}
  {
    var statusMap := map[
      Records.PENDENTE := "status-pendente",
      Records.APROVADO := "status-aprovado",
      Records.RECUSADO := "status-recusado",
      Records.EM_REVISAO := "status-revisao"];
    if status.Some? && status.value in statusMap then statusMap[status.value] else "status-pendente"
  }

  /** The dialog's map is the one of the formatting helpers. */
  lemma StatusClassAgrees(status: string)
    ensures GetStatusClass(Some(status)) == FormatUtils.StatusColor(status)
    ensures GetStatusClass(None) == FormatUtils.STATUS_PENDENTE
  {
  }

  /** The request-details dialog: the request it shows, whether the
      approve/review/reject buttons, the review form and the action bar are
      visible, and the review notes typed so far. */
  datatype Details = Details(current: Option<int>, statusButtons: bool, reviewForm: bool, actionBar: bool, notes: string)

  /** What a click hands to the page. */
  datatype Call = NoCall | NotesMissing | Approve(id: int) | Reject(id: int) | Review(id: int, notes: string)

  /** The three status buttons are shown exactly for a pending request
      (`request.status || ''`). */
  function StatusButtonsShown(status: Option<string>): (b: bool)
    ensures b <==> status == Some(Records.PENDENTE)
  {
    status.GetOr("") == Records.PENDENTE
  }

  /** `onOpen(request)`: the request becomes current, the status buttons
      follow its status, the review form is hidden and the action bar
      shown. */
  function OnOpen(d: Details, id: int, status: Option<string>): (r: Details)
    ensures r.current == Some(id) && r.statusButtons == StatusButtonsShown(status)
    ensures !r.reviewForm && r.actionBar && r.notes == d.notes
  {
    Details(Some(id), StatusButtonsShown(status), false, true, d.notes)
  }

  /** `onClose`: no current request, the notes cleared, the review form
      hidden. */
  function OnClose(d: Details): (r: Details)
    ensures r.current.None? && r.notes == "" && !r.reviewForm
    ensures r.statusButtons == d.statusButtons && r.actionBar == d.actionBar
  {
    d.(current := None, notes := "", reviewForm := false)
  }

  /** The review button: the form replaces the action bar. */
  function ClickReview(d: Details): (r: Details)
    ensures r.reviewForm && !r.actionBar && r.current == d.current && r.notes == d.notes
  {
    d.(reviewForm := true, actionBar := false)
  }

  /** The cancel button of the review form: back to the action bar, notes
      cleared. */
  function CancelReview(d: Details): (r: Details)
    ensures !r.reviewForm && r.actionBar && r.notes == "" && r.current == d.current
  {
    d.(reviewForm := false, actionBar := true, notes := "")
  }

  /** Approve: with a current request the page approves it and the dialog
      closes; otherwise nothing. */
  function ClickApprove(d: Details): (r: (Details, Call))
    ensures d.current.None? ==> r == (d, NoCall)
    ensures d.current.Some? ==> r.1 == Approve(d.current.value) && r.0 == OnClose(d)
  {
    match d.current
    case None => (d, NoCall)
    case Some(id) => (OnClose(d), Approve(id))
  }

  /** Reject: as approve, and only when the user confirms. */
  function ClickReject(d: Details, confirmed: bool): (r: (Details, Call))
    ensures d.current.None? || !confirmed ==> r == (d, NoCall)
    ensures d.current.Some? && confirmed ==> r.1 == Reject(d.current.value) && r.0 == OnClose(d)
  {
    if d.current.Some? && confirmed then (OnClose(d), Reject(d.current.value)) else (d, NoCall)
  }

  /** Submitting the review: the trimmed notes go to the page and the
      dialog closes; blank notes only raise a toast. */
  function SubmitReview(d: Details): (r: (Details, Call))
    ensures r.1.Review? ==> d.current == Some(r.1.id) && r.1.notes == Text.Trim(d.notes) && r.1.notes != ""
    ensures d.current.Some? && Text.Blank(d.notes) ==> r == (d, NotesMissing)
    ensures d.current.None? ==> r == (d, NoCall)
    ensures r.1.Review? ==> r.0 == OnClose(d)
  {
    match d.current
    case None => (d, NoCall)
    case Some(id) =>
      var notes := Text.Trim(d.notes);
      Text.TrimEmptyIffBlank(d.notes);
      if notes == "" then (d, NotesMissing) else (OnClose(d), Review(id, notes))
  }

  /** The review is sent exactly when a request is shown and the notes are
      not blank. */
  lemma ReviewSentIff(d: Details)
    ensures SubmitReview(d).1.Review? <==> d.current.Some? && !Text.Blank(d.notes)
  {
    Text.TrimEmptyIffBlank(d.notes);
  }

  /** The date-editing dialog's confirm button: the product being edited
      and the new date go to the page, which needs both; an empty date only
      raises a toast. */
  datatype DateCall = NoDateCall | DateMissing | UpdateDate(productId: int, date: string)

  function ConfirmEditDate(current: Option<int>, inputPresent: bool, date: string): (r: DateCall)
    ensures r.UpdateDate? <==> current.Some? && inputPresent && date != ""
    ensures r.UpdateDate? ==> r.productId == current.value && r.date == date
    ensures r == DateMissing <==> current.Some? && inputPresent && date == ""
  {
    if current.None? || !inputPresent then NoDateCall
    else if date == "" then DateMissing
    else UpdateDate(current.value, date)
  }
}
