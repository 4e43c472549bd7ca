/**
 * The in-memory task repository of task8: tasks keyed by ID and the next ID
 * to hand out. IDs come only from the counter, which never goes back, so a
 * deleted ID is never handed out again.
 */
module TaskRepository {
  import opened Wrappers
  import opened Domain
  import Maps

  datatype Repo = Repo(tasks: map<int, Task>, nextTaskID: int)

  /** Tasks are keyed by their own IDs, all of them already handed out. */
  ghost predicate Valid(r: Repo) {
    && r.nextTaskID >= 1
    && forall id :: id in r.tasks ==> r.tasks[id].id == id && 1 <= id < r.nextTaskID
  }

  function New(): (r: Repo)
    ensures Valid(r) && r.tasks == map[]
  {
    Repo(map[], 1)
  }

  /** The repository after a call together with the call's result. */
  datatype Reply = Reply(repo: Repo, result: Result<Task, Error>)

  /** Stores the task under the next ID, whatever ID it came with; the error is always nil. */
  function Save(r: Repo, task: Task): (s: Reply)
    ensures s.result == Ok(task.(id := r.nextTaskID))
    ensures s.repo.nextTaskID == r.nextTaskID + 1
    ensures s.repo.tasks == r.tasks[r.nextTaskID := s.result.value]
    ensures Valid(r) ==> Valid(s.repo) && r.nextTaskID !in r.tasks
  {
    var saved := task.(id := r.nextTaskID);
    Reply(Repo(r.tasks[saved.id := saved], r.nextTaskID + 1), Ok(saved))
  }

  function FindByID(r: Repo, id: int): (res: Result<Task, Error>)
    ensures res.Err? <==> id !in r.tasks
    ensures res.Err? ==> res.error == TaskNotFound
    ensures res.Ok? ==> res.value == r.tasks[id]
  {
    if id !in r.tasks then Err(TaskNotFound) else Ok(r.tasks[id])
  }

  /** Every stored task, in Go's unspecified map order; the error is always nil. */
  method FindAll(r: Repo) returns (all: seq<Task>)
    ensures |all| == |r.tasks|
    ensures forall id :: id in r.tasks ==> r.tasks[id] in all
    ensures forall t :: t in all ==> t in r.tasks.Values
    ensures Valid(r) ==> forall i, j :: 0 <= i < j < |all| ==> all[i].id != all[j].id
  {
    ghost var order;
    all, order := Maps.CollectValues(r.tasks, _ => true);
    assert Maps.KeysWhere(r.tasks, _ => true) == r.tasks.Keys;
    forall t | t in all
      ensures t in r.tasks.Values
    {
      var i :| 0 <= i < |all| && all[i] == t;
      assert r.tasks[order[i]] == t;
    }
    if Valid(r) {
      forall i, j | 0 <= i < j < |all|
        ensures all[i].id != all[j].id
      {
        assert all[i].id == order[i] && all[j].id == order[j];
      }
    }
  }

  /** Replaces the whole stored task with the same ID, or reports that there is none. */
  function Update(r: Repo, task: Task): (s: Reply)
    ensures task.id !in r.tasks ==> s == Reply(r, Err(TaskNotFound))
    ensures task.id in r.tasks ==> s == Reply(r.(tasks := r.tasks[task.id := task]), Ok(task))
    ensures Valid(r) ==> Valid(s.repo)
  {
    if task.id !in r.tasks then Reply(r, Err(TaskNotFound))
    else Reply(r.(tasks := r.tasks[task.id := task]), Ok(task))
  }

  /** The repository after a deletion together with the error it returned (None for nil). */
  datatype Deleted = Deleted(repo: Repo, err: Option<Error>)

  function Delete(r: Repo, id: int): (d: Deleted)
    ensures id !in r.tasks ==> d == Deleted(r, Some(TaskNotFound))
    ensures id in r.tasks ==> d.err.None? && d.repo.tasks.Keys == r.tasks.Keys - {id}
    ensures forall k :: k in d.repo.tasks ==> d.repo.tasks[k] == r.tasks[k]
    ensures d.repo.nextTaskID == r.nextTaskID
    ensures Valid(r) ==> Valid(d.repo)
  {
    if id !in r.tasks then Deleted(r, Some(TaskNotFound))
    else Deleted(r.(tasks := r.tasks - {id}), None)
  }

  /** A deleted task is gone: finding or deleting it again reports it missing. */
  lemma DeleteIsFinal(r: Repo, id: int)
    requires id in r.tasks
    ensures FindByID(Delete(r, id).repo, id) == Err(TaskNotFound)
    ensures Delete(Delete(r, id).repo, id).err == Some(TaskNotFound)
  {
  }

  /** What is saved can be found under the ID the save returned. */
  lemma SaveThenFind(r: Repo, task: Task)
    ensures FindByID(Save(r, task).repo, Save(r, task).result.value.id) == Save(r, task).result
  {
  }

  datatype Op = SaveOp(task: Task) | UpdateOp(task: Task) | DeleteOp(id: int)

  function Apply(r: Repo, op: Op): Repo {
    match op
    case SaveOp(t) => Save(r, t).repo
    case UpdateOp(t) => Update(r, t).repo
    case DeleteOp(id) => Delete(r, id).repo
  }

  function Run(r: Repo, ops: seq<Op>): Repo
    decreases |ops|
  {
    if |ops| == 0 then r else Run(Apply(r, ops[0]), ops[1..])
  }

  /** The counter never goes back and validity is kept, whatever the calls. */
  lemma {:induction false} RunKeepsCounter(r: Repo, ops: seq<Op>)
    requires Valid(r)
    ensures Valid(Run(r, ops)) && Run(r, ops).nextTaskID >= r.nextTaskID
    decreases |ops|
  {
    if |ops| > 0 {
      RunKeepsCounter(Apply(r, ops[0]), ops[1..]);
    }
  }

  /** Once a task is deleted, no later save hands out its ID again. */
  lemma DeletedIdNeverReused(r: Repo, id: int, ops: seq<Op>, task: Task)
    requires Valid(r) && id in r.tasks
    ensures Save(Run(Delete(r, id).repo, ops), task).result.value.id != id
  {
    RunKeepsCounter(Delete(r, id).repo, ops);
  }
}
