/**
 * The pure mapping helpers of task8's HTTP controller: domain errors to
 * status codes and response bodies, and domain tasks to response records.
 */
module HttpMapping {
  import opened Domain

  const StatusBadRequest: int := 400
  const StatusUnauthorized: int := 401
  const StatusForbidden: int := 403
  const StatusNotFound: int := 404
  const StatusConflict: int := 409
  const StatusInternalServerError: int := 500

  const InternalMessage: string := "An unexpected internal error occurred"
  const UnexpectedMessage: string := "An unexpected error occurred"

  /** A status code with the body `{"error": message}`. */
  datatype ErrorReply = ErrorReply(status: int, message: string)

  /**
   * Each sentinel error gets its own status and shows its own text; internal
   * and unrecognised errors get 500 with a fixed text that never repeats the
   * error.
   */
  function MapDomainErrorToHttp(e: Error): (r: ErrorReply)
    ensures r.status == StatusUnauthorized <==> e == InvalidCredentials
    ensures r.status == StatusConflict <==> e == UsernameExists
    ensures r.status == StatusNotFound <==> e == UserNotFound || e == TaskNotFound
    ensures r.status == StatusForbidden <==> e == Forbidden
    ensures r.status == StatusBadRequest <==> e == BadRequest
    ensures r.status == StatusInternalServerError <==> e == InternalServer || e.Foreign?
    ensures r.status != StatusInternalServerError ==> r.message == Message(e)
    ensures e == InternalServer ==> r.message == InternalMessage
    ensures e.Foreign? ==> r == ErrorReply(StatusInternalServerError, UnexpectedMessage)
  {
    match e
    case InvalidCredentials => ErrorReply(StatusUnauthorized, Message(e))
    case UsernameExists => ErrorReply(StatusConflict, Message(e))
    case UserNotFound => ErrorReply(StatusNotFound, Message(e))
    case TaskNotFound => ErrorReply(StatusNotFound, Message(e))
    case Forbidden => ErrorReply(StatusForbidden, Message(e))
    case BadRequest => ErrorReply(StatusBadRequest, Message(e))
    case InternalServer => ErrorReply(StatusInternalServerError, InternalMessage)
    case Foreign(_) => ErrorReply(StatusInternalServerError, UnexpectedMessage)
  }

  /** The client-facing message of a 500 reply never depends on the underlying error's text. */
  lemma ServerErrorsHideDetails(e1: Error, e2: Error)
    requires MapDomainErrorToHttp(e1).status == StatusInternalServerError
    requires MapDomainErrorToHttp(e2).status == StatusInternalServerError
    requires e1.Foreign? == e2.Foreign?
    ensures MapDomainErrorToHttp(e1) == MapDomainErrorToHttp(e2)
  {
  }

  datatype TaskResponse = TaskResponse(id: int, title: string, description: string, dueDate: string, status: string)

  function MapDomainTaskToResponse(t: Task): (r: TaskResponse)
    ensures r.id == t.id && r.title == t.title && r.description == t.description
    ensures r.dueDate == t.dueDate && r.status == t.status
  {
    TaskResponse(t.id, t.title, t.description, t.dueDate, t.status)
  }

  /** The task a response describes. */
  function ResponseToTask(r: TaskResponse): Task {
    Task(r.id, r.title, r.description, r.dueDate, r.status)
  }

  /** The response record loses nothing: tasks and responses correspond one to one. */
  lemma ResponseRoundTrip(t: Task, r: TaskResponse)
    ensures ResponseToTask(MapDomainTaskToResponse(t)) == t
    ensures MapDomainTaskToResponse(ResponseToTask(r)) == r
  {
  }

  /** Converts a slice of tasks element by element, keeping length and order. */
  method MapDomainTasksToResponse(tasks: seq<Task>) returns (responses: seq<TaskResponse>)
    ensures |responses| == |tasks|
    ensures forall i :: 0 <= i < |tasks| ==> ResponseToTask(responses[i]) == tasks[i]
  {
    responses := [];
    var i := 0;
    while i < |tasks|
      invariant 0 <= i <= |tasks|
      invariant |responses| == i
      invariant forall j :: 0 <= j < i ==> ResponseToTask(responses[j]) == tasks[j]
    {
      responses := responses + [MapDomainTaskToResponse(tasks[i])];
      i := i + 1;
    }
  }
}
