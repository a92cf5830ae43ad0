/** The records the task-manager client holds and exchanges with the REST API:
    the serialized Task, the client's view of a network call's outcome, and the
    requests the handlers send. */
module TaskModel {

  datatype Option<+T> = None | Some(value: T)

  /** Field-error map of a 422 response: field name to its validation messages. */
  type ErrorMap = map<string, seq<string>>

  /** A Task as the API serializes it. `status` is a label derived by the server;
      the client only ever compares it with "Completed". */
  datatype Task = Task(id: int, title: string, description: string, status: string)

  const CompletedLabel: string := "Completed"

  predicate IsCompleted(t: Task) {
    t.status == CompletedLabel
  }

  /** How an awaited API call ended, as the handlers distinguish it: a parsed
      success body, a 422 response carrying its field-error map, or any other
      failure (another status, or no response at all). */
  datatype Outcome<+T> = Ok(value: T) | Validation(errors: ErrorMap) | OtherError

  /** The calls the client issues against the `/tasks` resource. */
  datatype Request =
    | GetTasks
    | PostTask(title: string, description: string)
    | PutTask(id: int, title: string, description: string, isCompleted: bool)
    | DeleteTask(id: int)

  /** What a server that honours a request returns: a created record carries the
      submitted fields and is not completed; an updated record keeps the id and
      carries the submitted fields, its status reflecting `is_completed`. This is
      a hypothesis about the server, used only as a premise: of lemmas, and of
      the unique-id postconditions of the submit and toggle handlers. */
  ghost predicate Reflects(req: Request, reply: Task) {
    match req
    case PostTask(title, description) =>
      reply.title == title && reply.description == description && !IsCompleted(reply)
    case PutTask(id, title, description, isCompleted) =>
      reply.id == id && reply.title == title && reply.description == description
      && IsCompleted(reply) == isCompleted
    case _ => true
  }
}
