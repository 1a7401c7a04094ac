/**
 * tasks.json: one row per task note. A row is skipped when a row with the
 * same task ID already exists; otherwise it is numbered `task-001`, ...
 */
module Tasks {
  import opened Model
  import opened DisplayIds

  function TaskIds(tasks: seq<Task>): (ids: seq<string>)
    ensures |ids| == |tasks| && forall i :: 0 <= i < |tasks| ==> ids[i] == tasks[i].id
  {
    seq(|tasks|, i requires 0 <= i < |tasks| => tasks[i].id)
  }

  predicate HasId(tasks: seq<Task>, id: string)
  {
    exists i :: 0 <= i < |tasks| && tasks[i].id == id
  }

  predicate IdsUnique(tasks: seq<Task>)
  {
    forall i, j :: 0 <= i < j < |tasks| ==> tasks[i].id != tasks[j].id
  }

  method GetNextTaskID(tasks: seq<Task>) returns (id: string)
    ensures id == NextId("task-", TaskIds(tasks))
    ensures MaxSuffix("task-", TaskIds(tasks)) < MaxInt64 ==> !HasId(tasks, id)
  {
    id := NextIdScan("task-", TaskIds(tasks));
    if MaxSuffix("task-", TaskIds(tasks)) < MaxInt64 {
      NextIdFresh("task-", TaskIds(tasks));
    }
  }

  /**
   * The duplicate test looks at the ID the caller passes, which the caller
   * leaves empty; the row that is stored carries the newly allocated ID.
   */
  method InsertTaskToJson(tasks: seq<Task>, task: Task) returns (updated: seq<Task>)
    ensures HasId(tasks, task.id) ==> updated == tasks
    ensures !HasId(tasks, task.id) ==> updated == tasks + [task.(id := NextId("task-", TaskIds(tasks)))]
    ensures MaxSuffix("task-", TaskIds(tasks)) < MaxInt64 && IdsUnique(tasks) ==> IdsUnique(updated)
  {
    var i := 0;
    while i < |tasks|
      invariant 0 <= i <= |tasks|
      invariant forall j :: 0 <= j < i ==> tasks[j].id != task.id
    {
      if task.id == tasks[i].id {
        return tasks;
      }
      i := i + 1;
    }
    var newId := GetNextTaskID(tasks);
    updated := tasks + [task.(id := newId)];
  }

}
