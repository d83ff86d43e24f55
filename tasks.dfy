/** The records of the task service: a stored task, the request body that
    create and update receive, its validated form, and the outcome of an
    operation. */
module Tasks {

  datatype Option<+T> = None | Some(value: T)

  /** A stored task record (the dict kept in the store's list). `id` is
      assigned by the store; `description` may be null. */
  datatype Task = Task(id: int, title: string, description: Option<string>, completed: bool)

  /** A request body as it arrives: each field is either present or
      absent. An explicit null is read as absent (for `title` and
      `description` this is what version 1 of the validation library does). */
  datatype Request = Request(title: Option<string>, description: Option<string>, completed: Option<bool>)

  /** The body after validation: the three fields of the payload model,
      with its defaults filled in. It has no `id` field. */
  datatype Payload = Payload(title: string, description: Option<string>, completed: bool)

  /** What an operation hands back to its caller. */
  datatype Outcome = Ok(task: Task) | NotFound | ValidationError

  /** Validation of a request body against the payload model: `title` is
      required (any string, the empty one included), `description` defaults
      to null and `completed` to false; supplied values are kept as given. */
  function Validate(req: Request): (r: Option<Payload>)
    ensures r.None? <==> req.title.None?
    ensures r.Some? ==> r.value.title == req.title.value
    ensures r.Some? ==> r.value.description == req.description
    ensures r.Some? && req.completed.None? ==> !r.value.completed
    ensures r.Some? && req.completed.Some? ==> r.value.completed == req.completed.value
  {
    match req.title
    case None => None
    case Some(title) =>
      var completed := match req.completed case None => false case Some(c) => c;
      Some(Payload(title, req.description, completed))
  }
}
