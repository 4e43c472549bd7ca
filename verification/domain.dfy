/**
 * The task-manager domain of task8/task9: users, tasks, role names and the
 * sentinel errors every layer compares against.
 */
module Domain {

  const RoleAdmin: string := "admin"
  const RoleUser: string := "user"

  datatype User = User(id: int, username: string, role: string)

  datatype Task = Task(id: int, title: string, description: string, dueDate: string, status: string)

  /** Go's zero values, returned beside every error. */
  const ZeroUser: User := User(0, "", "")
  const ZeroTask: Task := Task(0, "", "", "", "")

  /**
   * The sentinel errors, compared by identity in the source, and `Foreign`
   * for any other error value a collaborator may return (a lost database
   * connection, a hashing failure, ...).
   */
  datatype Error =
    | UserNotFound
    | TaskNotFound
    | UsernameExists
    | InvalidCredentials
    | Forbidden
    | InternalServer
    | BadRequest
    | Foreign(message: string)

  /** The text each error carries. */
  function Message(e: Error): string {
    match e
    case UserNotFound => "user not found"
    case TaskNotFound => "task not found"
    case UsernameExists => "username already exists"
    case InvalidCredentials => "invalid credentials"
    case Forbidden => "forbidden access"
    case InternalServer => "internal server error"
    case BadRequest => "bad request"
    case Foreign(m) => m
  }
}
