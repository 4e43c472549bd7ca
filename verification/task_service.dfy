/**
 * The in-memory task service of task5, repeated unchanged in task7: tasks
 * keyed by ID and a counter that starts at 1. `models.Task` there has the
 * same five fields as the domain task, so the model reuses that record.
 */
module TaskService {
  import opened Wrappers
  import opened Domain
  import Maps

  const TaskNotFoundMessage: string := "task not found"

  datatype Service = Service(tasks: map<int, Task>, nextTaskID: int)

  /** Tasks are keyed by their own IDs, all below the counter. */
  ghost predicate Valid(s: Service) {
    && s.nextTaskID >= 1
    && forall id :: id in s.tasks ==> s.tasks[id].id == id && 1 <= id < s.nextTaskID
  }

  function New(): (s: Service)
    ensures Valid(s) && s.tasks == map[] && s.nextTaskID == 1
  {
    Service(map[], 1)
  }

  /** Every stored task exactly once, in Go's unspecified map order. */
  method GetAll(s: Service) returns (all: seq<Task>)
    ensures |all| == |s.tasks|
    ensures forall id :: id in s.tasks ==> s.tasks[id] in all
    ensures forall t :: t in all ==> t in s.tasks.Values
  {
    ghost var order;
    all, order := Maps.CollectValues(s.tasks, _ => true);
    assert Maps.KeysWhere(s.tasks, _ => true) == s.tasks.Keys;
    forall t | t in all
      ensures t in s.tasks.Values
    {
      var i :| 0 <= i < |all| && all[i] == t;
      assert s.tasks[order[i]] == t;
    }
  }

  function GetByID(s: Service, id: int): (r: Result<Task, string>)
    ensures r.Err? <==> id !in s.tasks
    ensures r.Err? ==> r.error == TaskNotFoundMessage
    ensures r.Ok? ==> r.value == s.tasks[id]
  {
    if id !in s.tasks then Err(TaskNotFoundMessage) else Ok(s.tasks[id])
  }

  /** The service after creating a task, and the task as stored. */
  datatype Created = Created(service: Service, task: Task)

  /** Stores the task under the counter's value, whatever ID it came with. */
  function Create(s: Service, task: Task): (c: Created)
    ensures c.task == task.(id := s.nextTaskID)
    ensures c.service.nextTaskID == s.nextTaskID + 1
    ensures c.service.tasks == s.tasks[s.nextTaskID := c.task]
    ensures Valid(s) ==> Valid(c.service) && s.nextTaskID !in s.tasks
  {
    var stored := task.(id := s.nextTaskID);
    Created(Service(s.tasks[stored.id := stored], s.nextTaskID + 1), stored)
  }

  /** The service after an update together with the call's result. */
  datatype Updated = Updated(service: Service, result: Result<Task, string>)

  /**
   * Overwrites title, description, due date and status of the task stored
   * under `id`, empty strings included; the stored ID is kept whatever ID
   * the update carries.
   */
  function Update(s: Service, id: int, updated: Task): (u: Updated)
    ensures id !in s.tasks ==> u == Updated(s, Err(TaskNotFoundMessage))
    ensures id in s.tasks ==>
              && u.result.Ok?
              && u.result.value.id == s.tasks[id].id
              && u.result.value == updated.(id := s.tasks[id].id)
              && u.service == s.(tasks := s.tasks[id := u.result.value])
    ensures Valid(s) ==> Valid(u.service)
  {
    if id !in s.tasks then Updated(s, Err(TaskNotFoundMessage))
    else
      var task := s.tasks[id];
      var task' := task.(title := updated.title, description := updated.description,
                         dueDate := updated.dueDate, status := updated.status);
      Updated(s.(tasks := s.tasks[id := task']), Ok(task'))
  }

  /** The service after a deletion together with the error it returned (None for nil). */
  datatype Deleted = Deleted(service: Service, err: Option<string>)

  function Delete(s: Service, id: int): (d: Deleted)
    ensures id !in s.tasks ==> d == Deleted(s, Some(TaskNotFoundMessage))
    ensures id in s.tasks ==> d.err.None? && d.service.tasks.Keys == s.tasks.Keys - {id}
    ensures forall k :: k in d.service.tasks ==> d.service.tasks[k] == s.tasks[k]
    ensures d.service.nextTaskID == s.nextTaskID
    ensures Valid(s) ==> Valid(d.service)
  {
    if id !in s.tasks then Deleted(s, Some(TaskNotFoundMessage))
    else Deleted(s.(tasks := s.tasks - {id}), None)
  }

  /**
   * Reading a task back after an update gives the update's four fields
   * under the original ID; updating twice with the same data is the same as
   * updating once.
   */
  lemma UpdateThenGet(s: Service, id: int, updated: Task)
    requires Valid(s) && id in s.tasks
    ensures
      var got := GetByID(Update(s, id, updated).service, id);
      && got.Ok? && got.value.id == id
      && got.value.title == updated.title && got.value.description == updated.description
      && got.value.dueDate == updated.dueDate && got.value.status == updated.status
    ensures Update(Update(s, id, updated).service, id, updated) == Update(s, id, updated)
  {
  }

  /**
   * Deleting is final and undoes a creation: the deleted ID is not found
   * afterwards and a second deletion reports "task not found"; deleting the
   * task just created gives back the tasks as they were, while the counter
   * stays advanced, so that ID is never handed out again.
   */
  lemma DeleteUndoesCreate(s: Service, task: Task)
    requires Valid(s)
    ensures
      var c := Create(s, task);
      var d := Delete(c.service, c.task.id);
      && d.err.None?
      && d.service.tasks == s.tasks
      && d.service.nextTaskID == s.nextTaskID + 1
      && GetByID(d.service, c.task.id) == Err(TaskNotFoundMessage)
      && Delete(d.service, c.task.id).err == Some(TaskNotFoundMessage)
  {
    var c := Create(s, task);
    assert c.service.tasks - {c.task.id} == s.tasks;
  }

  /** The n-th task created in a fresh service gets ID n. */
  function CreateAll(s: Service, tasks: seq<Task>): (r: (Service, seq<int>))
    decreases |tasks|
  {
    if |tasks| == 0 then (s, [])
    else
      var c := Create(s, tasks[0]);
      var (end, ids) := CreateAll(c.service, tasks[1..]);
      (end, [c.task.id] + ids)
  }

  lemma {:induction false} CreateAllNumbersFrom(s: Service, tasks: seq<Task>)
    ensures
      var (end, ids) := CreateAll(s, tasks);
      && |ids| == |tasks|
      && (forall i :: 0 <= i < |ids| ==> ids[i] == s.nextTaskID + i)
      && end.nextTaskID == s.nextTaskID + |tasks|
    decreases |tasks|
  {
    if |tasks| > 0 {
      CreateAllNumbersFrom(Create(s, tasks[0]).service, tasks[1..]);
    }
  }
}
