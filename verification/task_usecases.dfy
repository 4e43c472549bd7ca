/**
 * The task use cases of task9: input checks plus the translation of the
 * repository's answers into domain errors. The repository is a set of
 * functions giving its answer to each call, and every use case reports the
 * calls it made, so "before any repository call" can be stated.
 */
module TaskUsecases {
  import opened Wrappers
  import opened Domain
  import TaskRepository

  /** The repository's answer to each call it may receive. */
  datatype Repo = Repo(
    save: Task -> Result<Task, Error>,
    findByID: int -> Result<Task, Error>,
    findAll: Result<seq<Task>, Error>,
    update: Task -> Result<Task, Error>,
    delete: int -> Option<Error>)

  datatype Call = SaveCall(task: Task) | FindByIDCall(id: int) | FindAllCall | UpdateCall(task: Task) | DeleteCall(id: int)

  /** A use case's returned value and error, and the repository calls it made, in order. */
  datatype Outcome<T> = Outcome(value: T, err: Option<Error>, calls: seq<Call>)

  /** Only sentinel errors reach the caller; a collaborator's own error value never does. */
  predicate Sanitised(err: Option<Error>) {
    err.Some? ==> !err.value.Foreign?
  }

  /** How Get, Update and Delete pass on a repository error: "not found" as is, anything else as internal. */
  function Translate(e: Error): (t: Error)
    ensures t == TaskNotFound <==> e == TaskNotFound
    ensures t != TaskNotFound ==> t == InternalServer
  {
    if e == TaskNotFound then e else InternalServer
  }

  function CreateTask(repo: Repo, title: string, description: string, dueDate: string, status: string): (r: Outcome<Task>)
    ensures title == "" ==> r == Outcome(ZeroTask, Some(BadRequest), [])
    ensures title != "" ==> r.calls == [SaveCall(Task(0, title, description, dueDate, status))]
    ensures r.err.None? <==> title != "" && repo.save(Task(0, title, description, dueDate, status)).Ok?
    ensures r.err.None? ==> r.value == repo.save(Task(0, title, description, dueDate, status)).value
    ensures title != "" && repo.save(Task(0, title, description, dueDate, status)).Err? ==> r.err == Some(InternalServer)
    ensures r.err.Some? ==> r.value == ZeroTask && r.err.value in {BadRequest, InternalServer}
  {
    if title == "" then Outcome(ZeroTask, Some(BadRequest), [])
    else
      var toSave := Task(0, title, description, dueDate, status);
      match repo.save(toSave)
      case Err(_) => Outcome(ZeroTask, Some(InternalServer), [SaveCall(toSave)])
      case Ok(saved) => Outcome(saved, None, [SaveCall(toSave)])
  }

  function GetTaskByID(repo: Repo, id: int): (r: Outcome<Task>)
    ensures r.calls == [FindByIDCall(id)]
    ensures repo.findByID(id).Ok? ==> r.err.None? && r.value == repo.findByID(id).value
    ensures repo.findByID(id).Err? ==> r.value == ZeroTask && r.err == Some(Translate(repo.findByID(id).error))
    ensures Sanitised(r.err)
  {
    match repo.findByID(id)
    case Err(e) => Outcome(ZeroTask, Some(if e == TaskNotFound then e else InternalServer), [FindByIDCall(id)])
    case Ok(task) => Outcome(task, None, [FindByIDCall(id)])
  }

  /** All tasks; on a repository error the list is nil (None). */
  function GetAllTasks(repo: Repo): (r: Outcome<Option<seq<Task>>>)
    ensures r.calls == [FindAllCall]
    ensures repo.findAll.Err? ==> r.value.None? && r.err == Some(InternalServer)
    ensures repo.findAll.Ok? ==> r.value == Some(repo.findAll.value) && r.err.None?
  {
    match repo.findAll
    case Err(_) => Outcome(None, Some(InternalServer), [FindAllCall])
    case Ok(tasks) => Outcome(Some(tasks), None, [FindAllCall])
  }

  /**
   * Updates a task: a non-empty title, then an existence check, then the
   * update of the task carrying the requested ID and the four given fields.
   */
  function UpdateTask(repo: Repo, id: int, title: string, description: string, dueDate: string, status: string): (r: Outcome<Task>)
    ensures title == "" ==> r == Outcome(ZeroTask, Some(BadRequest), [])
    ensures title != "" && repo.findByID(id).Err? ==>
              r == Outcome(ZeroTask, Some(Translate(repo.findByID(id).error)), [FindByIDCall(id)])
    ensures title != "" && repo.findByID(id).Ok? ==>
              r.calls == [FindByIDCall(id), UpdateCall(Task(id, title, description, dueDate, status))]
    ensures title != "" && repo.findByID(id).Ok? ==>
              var sent := Task(id, title, description, dueDate, status);
              && (repo.update(sent).Ok? ==> r.err.None? && r.value == repo.update(sent).value)
              && (repo.update(sent).Err? ==> r.err == Some(Translate(repo.update(sent).error)))
    ensures forall t :: UpdateCall(t) in r.calls ==> repo.findByID(id).Ok? && r.calls[0] == FindByIDCall(id)
    ensures r.err.None? ==>
              var sent := Task(id, title, description, dueDate, status);
              repo.update(sent).Ok? && r.value == repo.update(sent).value
    ensures r.err.Some? ==> r.value == ZeroTask
    ensures Sanitised(r.err)
  {
    if title == "" then Outcome(ZeroTask, Some(BadRequest), [])
    else
      match repo.findByID(id)
      case Err(e) => Outcome(ZeroTask, Some(if e == TaskNotFound then e else InternalServer), [FindByIDCall(id)])
      case Ok(_) =>
        var toUpdate := Task(id, title, description, dueDate, status);
        var calls := [FindByIDCall(id), UpdateCall(toUpdate)];
        match repo.update(toUpdate)
        case Err(e) => Outcome(ZeroTask, Some(if e == TaskNotFound then e else InternalServer), calls)
        case Ok(updated) => Outcome(updated, None, calls)
  }

  function DeleteTask(repo: Repo, id: int): (r: Outcome<()>)
    ensures r.calls == [DeleteCall(id)]
    ensures repo.delete(id).None? ==> r.err.None?
    ensures repo.delete(id).Some? ==> r.err == Some(Translate(repo.delete(id).value))
    ensures Sanitised(r.err)
  {
    match repo.delete(id)
    case Some(e) => Outcome((), Some(if e == TaskNotFound then e else InternalServer), [DeleteCall(id)])
    case None => Outcome((), None, [DeleteCall(id)])
  }

  /**
   * The answers the in-memory repository of task8 gives in state `state`;
   * `listing` is the slice its `FindAll` produced, whose order Go leaves open.
   */
  function InMemory(state: TaskRepository.Repo, listing: seq<Task>): Repo {
    Repo(
      t => TaskRepository.Save(state, t).result,
      id => TaskRepository.FindByID(state, id),
      Ok(listing),
      t => TaskRepository.Update(state, t).result,
      id => TaskRepository.Delete(state, id).err)
  }

  /**
   * Over the in-memory repository no use case reports an internal error:
   * creating always succeeds with the next ID, and reading, updating and
   * deleting fail only with "task not found", exactly when the ID is absent.
   */
  lemma InMemoryNeverInternal(state: TaskRepository.Repo, listing: seq<Task>, id: int, title: string, description: string, dueDate: string, status: string)
    requires title != ""
    ensures
      var created := CreateTask(InMemory(state, listing), title, description, dueDate, status);
      created.err.None? && created.value == Task(state.nextTaskID, title, description, dueDate, status)
    ensures GetTaskByID(InMemory(state, listing), id).err.Some? <==> id !in state.tasks
    ensures GetTaskByID(InMemory(state, listing), id).err.Some? ==> GetTaskByID(InMemory(state, listing), id).err == Some(TaskNotFound)
    ensures
      var updated := UpdateTask(InMemory(state, listing), id, title, description, dueDate, status);
      && (updated.err.Some? <==> id !in state.tasks)
      && (updated.err.Some? ==> updated.err == Some(TaskNotFound))
      && (updated.err.None? ==> updated.value == Task(id, title, description, dueDate, status))
    ensures DeleteTask(InMemory(state, listing), id).err.Some? <==> id !in state.tasks
    ensures GetAllTasks(InMemory(state, listing)) == Outcome(Some(listing), None, [FindAllCall])
  {
  }
}
