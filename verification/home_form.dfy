/** The add/edit form of the task list page (src/Home.js) as a record, with the
    transitions that startEditing, addTask and toggleTaskCompletion make on it.
    The server's answer to a request is an input: `Succeeded` or `Failed`. */
module HomeForm {
  import opened Wrappers
  import opened Tasks
  import Text

  /** The page's state hooks that the form transitions touch. `dueDate` is the
      date input, `None` standing for its empty value; `message` and `error`
      are `None` when set to null. */
  datatype Form = Form(
    title: string,
    description: string,
    priority: Priority,
    dueDate: Option<Date>,
    isEditing: bool,
    editTaskId: Option<TaskId>,
    currentPage: int,
    message: Option<string>,
    error: Option<string>)

  /** The state the page starts in: an empty, blank-titled creation form of
      medium priority and no due date, on the first page, with no error. */
  function InitialForm(): (r: Form)
    ensures Text.IsBlank(r.title) && r.description == "" && r.dueDate.None?
    ensures r.priority == Medium
    ensures !r.isEditing && EditTargetSet(r)
    ensures r.currentPage == 1 && r.error.None?
  {
    Form("", "", Medium, None, false, None, 1, Some(""), None)
  }

  const AddedMessage := "Task added successfully!"
  const UpdatedMessage := "Task updated successfully!"
  const SaveError := "Failed to save task."
  const ToggleError := "Failed to update task."

  /** The JSON body of a create or an edit; an empty date input is sent as null. */
  datatype Payload = Payload(title: string, description: string, priority: Priority, dueDate: Option<Date>)

  /** The request addTask issues: a POST of a new task, or a PATCH of the task
      being edited. */
  datatype Request = Create(payload: Payload) | Update(id: Option<TaskId>, payload: Payload)

  /** How the server answered. */
  datatype Outcome = Succeeded | Failed

  /** The state after a submit, the request it issued (if any), and whether it
      asks for the page to be fetched again. */
  datatype SubmitResult = SubmitResult(form: Form, request: Option<Request>, refetch: bool)

  /** An edit form always names the task it edits. */
  predicate EditTargetSet(f: Form)
  {
    f.isEditing ==> f.editTaskId.Some?
  }

  /** startEditing: load a task into the form and switch to edit mode. A missing
      title becomes '', a missing due date the empty date input, and a missing
      priority 'medium'; nothing else changes. */
  function StartEditing(f: Form, t: Task): (r: Form)
    ensures r.isEditing && r.editTaskId == Some(t.id)
    ensures r.title == (if t.title.Some? then t.title.value else "")
    ensures r.description == t.description
    ensures r.dueDate == t.dueDate
    ensures r.priority == (if t.priority.Some? then t.priority.value else Medium)
    ensures r.currentPage == f.currentPage && r.message == f.message && r.error == f.error
    ensures EditTargetSet(r)
  {
    f.(isEditing := true,
       editTaskId := Some(t.id),
       title := t.title.GetOr(""),
       description := t.description,
       dueDate := t.dueDate,
       priority := t.priority.GetOr(Medium))
  }

  /** The request a submit of `f` sends: a PATCH of the edited task in edit
      mode and a POST otherwise, in both cases carrying the form's four fields. */
  function RequestFor(f: Form): (r: Request)
    ensures r.payload == Payload(f.title, f.description, f.priority, f.dueDate)
    ensures r.Update? <==> f.isEditing
    ensures r.Update? ==> r.id == f.editTaskId
  {
    var body := Payload(f.title, f.description, f.priority, f.dueDate);
    if f.isEditing then Update(f.editTaskId, body) else Create(body)
  }

  /** addTask. A blank or white-space-only title does nothing at all. Otherwise
      the form's fields are sent, as an update of the edited task in edit mode
      and as a new task otherwise; on success the form is cleared, edit mode
      ends, the first page is selected, the error is cleared and a success
      message set; on failure only the error and the message change. */
  function Submit(f: Form, outcome: Outcome): (r: SubmitResult)
    ensures Text.IsBlank(f.title) ==> r.form == f && r.request == None && !r.refetch
    ensures !Text.IsBlank(f.title) ==>
      && r.request.Some?
      && r.request.value.payload == Payload(f.title, f.description, f.priority, f.dueDate)
      && (f.isEditing <==> r.request.value.Update?)
      && (f.isEditing ==> r.request.value.id == f.editTaskId)
    ensures !Text.IsBlank(f.title) && outcome == Succeeded ==>
      && r.form == InitialForm().(editTaskId := f.editTaskId,
                                  message := Some(if f.isEditing then UpdatedMessage else AddedMessage))
      && r.refetch
    ensures !Text.IsBlank(f.title) && outcome == Failed ==>
      && r.form.error == Some(SaveError) && r.form.message == None
      && r.form == f.(error := r.form.error, message := r.form.message)
      && !r.refetch
  {
    if Text.IsBlank(f.title) then SubmitResult(f, None, false)
    else
      var request := RequestFor(f);
      match outcome
      case Succeeded =>
        var cleared := f.(title := "", description := "", priority := Medium, dueDate := None,
                          isEditing := false, currentPage := 1, error := None,
                          message := Some(if f.isEditing then UpdatedMessage else AddedMessage));
        SubmitResult(cleared, Some(request), true)
      case Failed =>
        SubmitResult(f.(error := Some(SaveError), message := None), Some(request), false)
  }

  /** Submitting the form as the page starts, before anything is typed, sends
      nothing and changes nothing. */
  lemma SubmitInitialIsNoOp(outcome: Outcome)
    ensures Submit(InitialForm(), outcome) == SubmitResult(InitialForm(), None, false)
  {
  }

  /** After a submit that issued a request, exactly one of a success message and
      an error is shown. */
  lemma SubmitReportsExactlyOne(f: Form, outcome: Outcome)
    requires !Text.IsBlank(f.title)
    ensures var g := Submit(f, outcome).form;
      (g.error.Some?) != (g.message.Some? && g.message.value != "")
  {
  }

  /** Every transition of the form keeps an edit form pointed at its task, so an
      update is never sent without a task id. */
  lemma EditTargetPreserved(f: Form, t: Task, outcome: Outcome)
    requires EditTargetSet(f)
    ensures EditTargetSet(StartEditing(f, t))
    ensures EditTargetSet(Submit(f, outcome).form)
    ensures Submit(f, outcome).request.Some? && Submit(f, outcome).request.value.Update? ==>
              Submit(f, outcome).request.value.id.Some?
  {
  }

  /** Editing a task and saving it at once sends that task's own fields back as
      an update of that task (with the defaults for missing fields). */
  lemma EditThenSaveSendsTask(f: Form, t: Task, outcome: Outcome)
    requires t.title.Some? && !Text.IsBlank(t.title.value)
    ensures Submit(StartEditing(f, t), outcome).request ==
            Some(Update(Some(t.id), Payload(t.title.value, t.description, t.priority.GetOr(Medium), t.dueDate)))
  {
  }

  /** A task without a title cannot be saved from the edit form: editing it and
      submitting at once issues nothing and changes nothing. */
  lemma EditUntitledIsNoOp(f: Form, t: Task, outcome: Outcome)
    requires t.title.None?
    ensures var g := StartEditing(f, t); Submit(g, outcome) == SubmitResult(g, None, false)
  {
  }

  /** The state after toggling, the task sent in the update, and whether it asks
      for the page to be fetched again. */
  datatype ToggleResult = ToggleResult(form: Form, sent: Task, refetch: bool)

  /** toggleTaskCompletion: send the task with its completion flipped. On
      failure the error is set and nothing else changes; the current page and
      the message are never touched. */
  function ToggleCompletion(f: Form, t: Task, outcome: Outcome): (r: ToggleResult)
    ensures r.sent.completed == !t.completed
    ensures r.sent.(completed := t.completed) == t
    ensures r.form.currentPage == f.currentPage && r.form.message == f.message
    ensures outcome == Succeeded ==> r.form == f && r.refetch
    ensures outcome == Failed ==> r.form == f.(error := Some(ToggleError)) && !r.refetch
  {
    var sent := Toggled(t);
    match outcome
    case Succeeded => ToggleResult(f, sent, true)
    case Failed => ToggleResult(f.(error := Some(ToggleError)), sent, false)
  }
}
