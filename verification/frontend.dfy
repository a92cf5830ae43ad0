/** The client-side state holder of the task manager (the `App` component): the
    task list, the form drafts, the field-error map and the task being edited,
    with one method per event handler. Every awaited API call is a parameter
    holding its outcome; the confirm dialog of a delete is a boolean. */
module Frontend {
  import opened TaskModel
  import opened TaskList

  /** The body of the form submission: a create from the drafts in Idle mode; in
      Editing mode an update of the edited task from the drafts that keeps its
      completion. */
  function SubmitRequest(editing: Option<Task>, title: string, description: string): (r: Request)
    ensures r.PostTask? <==> editing.None?
    ensures (r.PostTask? || r.PutTask?) && r.title == title && r.description == description
    ensures editing.Some? ==> r.PutTask? && r.id == editing.value.id && r.isCompleted == IsCompleted(editing.value)
  {
    match editing
    case None => PostTask(title, description)
    case Some(e) => PutTask(e.id, title, description, IsCompleted(e))
  }

  /** The body of a toggle: the task's own id, title and description, completion negated. */
  function ToggleRequest(task: Task): (r: Request)
    ensures r.PutTask? && r.id == task.id
    ensures r.title == task.title && r.description == task.description
    ensures r.isCompleted != IsCompleted(task)
  {
    PutTask(task.id, task.title, task.description, !IsCompleted(task))
  }

  /** A server that honours an update from Editing mode returns the record with
      the edited task's id, the drafts, and the edited task's completion. */
  lemma SubmitPreservesCompletion(editing: Option<Task>, title: string, description: string, reply: Task)
    requires editing.Some?
    requires Reflects(SubmitRequest(editing, title, description), reply)
    ensures reply.id == editing.value.id && IsCompleted(reply) == IsCompleted(editing.value)
    ensures reply.title == title && reply.description == description
  {
  }

  /** A server that honours a toggle returns the task flipped, and toggling that
      reply asks for the original completion back. */
  lemma ToggleFlipsCompletion(task: Task, reply: Task)
    requires Reflects(ToggleRequest(task), reply)
    ensures reply.id == task.id && IsCompleted(reply) != IsCompleted(task)
    ensures ToggleRequest(reply).isCompleted == IsCompleted(task)
  {
  }

  /** Edit-click keeps a snapshot of the task. If the task is then toggled and
      the edit submitted, the update carries the snapshot's completion, so with
      honouring replies every entry of that task ends with its completion from
      before the toggle. */
  lemma ToggleThenEditUndoes(ts: seq<Task>, t: Task, title: string, description: string, flipped: Task, saved: Task)
    requires Reflects(ToggleRequest(t), flipped)
    requires Reflects(SubmitRequest(Some(t), title, description), saved)
    ensures forall i :: 0 <= i < |ts| && ts[i].id == t.id ==>
      IsCompleted(ReplaceById(ReplaceById(ts, t.id, flipped), t.id, saved)[i]) == IsCompleted(t)
  {
    ToggleFlipsCompletion(t, flipped);
    SubmitPreservesCompletion(Some(t), title, description, saved);
    ReplaceByIdTwice(ts, t.id, flipped, saved);
  }

  class App {
    var tasks: seq<Task>
    var title: string
    var description: string
    var errors: ErrorMap
    var editingTask: Option<Task>

    /** The list keeps one entry per id, as long as the server's replies allow it. */
    ghost predicate Consistent()
      reads this
    {
      UniqueIds(tasks)
    }

    /** The initial state: no tasks, empty drafts, no errors, Idle mode. */
    constructor ()
      ensures tasks == [] && title == "" && description == ""
      ensures errors == map[] && editingTask == None
      ensures Consistent()
    {
      tasks := [];
      title := "";
      description := "";
      errors := map[];
      editingTask := None;
    }

    /** The fetch on mount: a successful list replaces `tasks`; on any failure
        the list is kept. Nothing else changes. */
    method FetchTasks(outcome: Outcome<seq<Task>>) returns (sent: Request)
      modifies this
      ensures sent == GetTasks
      ensures tasks == if outcome.Ok? then outcome.value else old(tasks)
      ensures title == old(title) && description == old(description)
      ensures errors == old(errors) && editingTask == old(editingTask)
    {
      sent := GetTasks;
      if outcome.Ok? {
        tasks := outcome.value;
      }
    }

    /** The form submission. Errors are cleared first. On success an update
        replaces the edited task's entries and leaves Editing mode, a create
        prepends the new record; both clear the drafts. A 422 installs the
        server's field errors and keeps everything else; any other failure keeps
        everything with the errors cleared. */
    method HandleSubmit(outcome: Outcome<Task>) returns (sent: Request)
      modifies this
      ensures sent == SubmitRequest(old(editingTask), old(title), old(description))
      ensures outcome.Ok? ==>
        && tasks == (match old(editingTask)
                     case Some(e) => ReplaceById(old(tasks), e.id, outcome.value)
                     case None => Prepend(outcome.value, old(tasks)))
        && title == "" && description == ""
        && errors == map[] && editingTask == None
      ensures !outcome.Ok? ==>
        && tasks == old(tasks) && title == old(title) && description == old(description)
        && editingTask == old(editingTask)
        && errors == (if outcome.Validation? then outcome.errors else map[])
      ensures old(Consistent()) && outcome.Ok? && Reflects(sent, outcome.value)
              && (old(editingTask).None? ==> !HasId(old(tasks), outcome.value.id))
              ==> Consistent()
    {
      errors := map[];
      sent := SubmitRequest(editingTask, title, description);
      match outcome
      case Ok(saved) =>
        if editingTask.Some? {
          if Consistent() && saved.id == editingTask.value.id {
            ReplaceKeepsUnique(tasks, editingTask.value.id, saved);
          }
          tasks := ReplaceById(tasks, editingTask.value.id, saved);
          editingTask := None;
        } else {
          if Consistent() && !HasId(tasks, saved.id) {
            PrependKeepsUnique(saved, tasks);
          }
          tasks := Prepend(saved, tasks);
        }
        title := "";
        description := "";
      case Validation(fieldErrors) =>
        errors := fieldErrors;
      case OtherError =>
    }

    /** The completion toggle of one task: on success its entries become the
        server's record; on failure nothing changes. Drafts, errors and the
        edit mode are never touched. */
    method HandleToggleStatus(task: Task, outcome: Outcome<Task>) returns (sent: Request)
      modifies this
      ensures sent == ToggleRequest(task)
      ensures tasks == if outcome.Ok? then ReplaceById(old(tasks), task.id, outcome.value) else old(tasks)
      ensures title == old(title) && description == old(description)
      ensures errors == old(errors) && editingTask == old(editingTask)
      ensures old(Consistent()) && outcome.Ok? && Reflects(sent, outcome.value) ==> Consistent()
    {
      sent := ToggleRequest(task);
      if outcome.Ok? {
        if Consistent() && outcome.value.id == task.id {
          ReplaceKeepsUnique(tasks, task.id, outcome.value);
        }
        tasks := ReplaceById(tasks, task.id, outcome.value);
      }
    }

    /** The delete of one task: nothing is sent unless the user confirms; on a
        successful call the entries with that id are removed, otherwise the list
        is kept. Drafts, errors and the edit mode are never touched. */
    method HandleDelete(id: int, confirmed: bool, outcome: Outcome<()>) returns (sent: Option<Request>)
      modifies this
      ensures sent == if confirmed then Some(DeleteTask(id)) else None
      ensures tasks == if confirmed && outcome.Ok? then RemoveById(old(tasks), id) else old(tasks)
      ensures title == old(title) && description == old(description)
      ensures errors == old(errors) && editingTask == old(editingTask)
      ensures old(Consistent()) ==> Consistent()
    {
      if !confirmed {
        sent := None;
        return;
      }
      sent := Some(DeleteTask(id));
      if outcome.Ok? {
        if Consistent() {
          RemoveKeepsUnique(tasks, id);
        }
        tasks := RemoveById(tasks, id);
      }
    }

    /** Typing into the title input: the draft takes the input's value. */
    method HandleTitleChange(value: string)
      modifies this
      ensures title == value
      ensures tasks == old(tasks) && description == old(description)
      ensures errors == old(errors) && editingTask == old(editingTask)
    {
      title := value;
    }

    /** Typing into the description textarea: the draft takes its value. */
    method HandleDescriptionChange(value: string)
      modifies this
      ensures description == value
      ensures tasks == old(tasks) && title == old(title)
      ensures errors == old(errors) && editingTask == old(editingTask)
    {
      description := value;
    }

    /** Entering Editing mode: the task is remembered, its title and description
        fill the drafts, and the errors are cleared. */
    method HandleEditClick(task: Task)
      modifies this
      ensures editingTask == Some(task)
      ensures title == task.title && description == task.description
      ensures errors == map[] && tasks == old(tasks)
    {
      editingTask := Some(task);
      title := task.title;
      description := task.description;
      errors := map[];
    }

    /** Leaving Editing mode without a call: drafts and errors are cleared and
        the list is kept. */
    method HandleCancelEdit()
      modifies this
      ensures editingTask == None
      ensures title == "" && description == ""
      ensures errors == map[] && tasks == old(tasks)
    {
      editingTask := None;
      title := "";
      description := "";
      errors := map[];
    }
  }
}
