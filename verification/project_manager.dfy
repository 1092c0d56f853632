/** The admin project page as a state machine: which form is open (none,
    add or edit), the project being edited, the project awaiting delete
    confirmation, and the requests each user action issues. A request's
    outcome comes back as its own event; fetching, cache refresh and toasts
    are left out. */
module ProjectManager {
  import opened Wrappers
  import opened Schema
  import ProjectForm

  /** `FormMode`: `NoForm` is the source's `FormMode.None`. */
  datatype FormMode = NoForm | Add | Edit

  datatype Page = Page(
    mode: FormMode,
    selected: Option<Project>,
    toDelete: Option<Project>,
    creating: bool,
    updating: bool,
    deleting: bool)

  const InitialPage := Page(NoForm, None, None, false, false, false)

  /** The requests the page sends to the API. */
  datatype Request =
    | CreateRequest(data: ProjectForm.SubmittedProject)
    | UpdateRequest(id: int, data: ProjectForm.SubmittedProject)
    | DeleteRequest(id: int)

  datatype Event =
    | AddClicked
    | EditClicked(project: Project)
    | DeleteClicked(project: Project)
    | ConfirmDelete
    | DialogDismissed
    | CancelForm
    | SubmitForm(data: ProjectForm.SubmittedProject)
    | CreateSettled(success: bool)
    | UpdateSettled(success: bool)
    | DeleteSettled(success: bool)

  /** One event: the next page state and the request it sends, if any. */
  function Step(p: Page, e: Event): (r: (Page, Option<Request>))
    ensures e.AddClicked? ==> r.0 == p.(mode := Add, selected := None) && r.1.None?
    ensures e.EditClicked? ==> r.0 == p.(mode := Edit, selected := Some(e.project)) && r.1.None?
    ensures e.DeleteClicked? ==> r.0 == p.(toDelete := Some(e.project)) && r.1.None?
    ensures e.CancelForm? ==> r.0 == p.(mode := NoForm, selected := None) && r.1.None?
    ensures e.DialogDismissed? ==> r.0 == p.(toDelete := None) && r.1.None?
    ensures e.ConfirmDelete? ==>
      && (r.1.Some? <==> p.toDelete.Some?)
      && (p.toDelete.Some? ==> r.1 == Some(DeleteRequest(p.toDelete.value.id))
                                && r.0 == p.(toDelete := None, deleting := true))
      && (p.toDelete.None? ==> r.0 == p)
    ensures e.SubmitForm? ==>
      && (p.mode == Add ==> r.1 == Some(CreateRequest(e.data)) && r.0 == p.(creating := true))
      && (p.mode == Edit && p.selected.Some? ==>
            r.1 == Some(UpdateRequest(p.selected.value.id, e.data)) && r.0 == p.(updating := true))
      && (r.1.None? <==> (p.mode == NoForm || (p.mode == Edit && p.selected.None?)))
      && (r.1.None? ==> r.0 == p)
    ensures e.CreateSettled? ==>
      && r.1.None? && !r.0.creating
      && r.0 == (if e.success then p.(mode := NoForm, creating := false) else p.(creating := false))
    ensures e.UpdateSettled? ==>
      && r.1.None? && !r.0.updating
      && r.0 == (if e.success then p.(mode := NoForm, selected := None, updating := false)
                 else p.(updating := false))
    ensures e.DeleteSettled? ==>
      && r.1.None? && !r.0.deleting
      && r.0 == (if e.success then p.(toDelete := None, deleting := false) else p.(deleting := false))
  {
    match e
    case AddClicked => (p.(mode := Add, selected := None), None)
    case EditClicked(project) => (p.(mode := Edit, selected := Some(project)), None)
    case DeleteClicked(project) => (p.(toDelete := Some(project)), None)
    case ConfirmDelete =>
      // The dialog's action button runs the confirm handler and then closes
      // the dialog, whose close handler clears the pending project.
      if p.toDelete.Some? then (p.(toDelete := None, deleting := true), Some(DeleteRequest(p.toDelete.value.id)))
      else (p, None)
    case DialogDismissed => (p.(toDelete := None), None)
    case CancelForm => (p.(mode := NoForm, selected := None), None)
    case SubmitForm(data) =>
      if p.mode == Add then (p.(creating := true), Some(CreateRequest(data)))
      else if p.mode == Edit && p.selected.Some? then
        (p.(updating := true), Some(UpdateRequest(p.selected.value.id, data)))
      else
        assert p.mode == NoForm || p.mode == Edit;
        (p, None)
    case CreateSettled(success) =>
      if success then (p.(mode := NoForm, creating := false), None) else (p.(creating := false), None)
    case UpdateSettled(success) =>
      if success then (p.(mode := NoForm, selected := None, updating := false), None)
      else (p.(updating := false), None)
    case DeleteSettled(success) =>
      if success then (p.(toDelete := None, deleting := false), None) else (p.(deleting := false), None)
  }

  /** The add button is shown only when no form is open. */
  predicate ShowsAddButton(p: Page) {
    p.mode == NoForm
  }

  /** The form is shown when one is open and nothing is loading. */
  predicate ShowsForm(p: Page, authLoading: bool, projectsLoading: bool) {
    !(authLoading || projectsLoading) && p.mode != NoForm
  }

  /** The confirmation dialog is open exactly while a project awaits it. */
  predicate DialogOpen(p: Page) {
    p.toDelete.Some?
  }

  /** The form's submit button is disabled while a create or an update is
      in flight. */
  predicate IsSubmitting(p: Page) {
    p.creating || p.updating
  }

  /** What every reachable page satisfies: an edit form always has its
      project, an add form never has one. */
  predicate Inv(p: Page) {
    (p.mode == Edit ==> p.selected.Some?) && (p.mode == Add ==> p.selected.None?)
  }

  lemma StepKeepsInv(p: Page, e: Event)
    requires Inv(p)
    ensures Inv(Step(p, e).0)
  {
  }

  /** Submitting an open form always sends a request: a create from the
      add form, an update of the edited project's id from the edit form, so
      the source's guard on the selection never fails on a reachable page. */
  lemma SubmitOpenFormSends(p: Page, data: ProjectForm.SubmittedProject)
    requires Inv(p) && p.mode != NoForm
    ensures var r := Step(p, SubmitForm(data)).1;
      && r.Some?
      && (p.mode == Add ==> r.value == CreateRequest(data))
      && (p.mode == Edit ==> r.value == UpdateRequest(p.selected.value.id, data))
  {
  }

  /** Choosing delete only opens the dialog; confirming sends a delete of
      exactly that project and closes the dialog at once, so it stays
      closed whatever the outcome, and a second confirm sends nothing. */
  lemma DeleteFlow(p: Page, q: Project, success: bool)
    ensures var (p1, r1) := Step(p, DeleteClicked(q));
      var (p2, r2) := Step(p1, ConfirmDelete);
      var p3 := Step(p2, DeleteSettled(success)).0;
      && DialogOpen(p1) && r1.None?
      && r2 == Some(DeleteRequest(q.id))
      && !DialogOpen(p2) && !DialogOpen(p3)
      && Step(p3, ConfirmDelete).1.None?
  {
  }

  /** A successful save from either form returns to the list with the add
      button showing and nothing in flight. */
  lemma SaveClosesForm(p: Page, data: ProjectForm.SubmittedProject)
    requires Inv(p) && p.mode != NoForm && !p.creating && !p.updating
    ensures var (p1, _) := Step(p, SubmitForm(data));
      var settled := if p.mode == Add then CreateSettled(true) else UpdateSettled(true);
      && IsSubmitting(p1)
      && ShowsAddButton(Step(p1, settled).0)
      && !IsSubmitting(Step(p1, settled).0)
  {
  }

  /** A failed save keeps the form open with its contents. */
  lemma FailedSaveKeepsForm(p: Page, data: ProjectForm.SubmittedProject)
    requires Inv(p) && p.mode != NoForm
    ensures var (p1, _) := Step(p, SubmitForm(data));
      var settled := if p.mode == Add then CreateSettled(false) else UpdateSettled(false);
      && Step(p1, settled).0.mode == p.mode
      && Step(p1, settled).0.selected == p.selected
  {
  }
}
