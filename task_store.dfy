/** The task file and the five commands. Every command reads the whole file,
    works on the list in memory and, when it changes something, rewrites the
    whole file. */
module TaskStore {
  import opened Tasks

  /** What `update` and `mark` report. */
  datatype EditOutcome = Edited | NotFound

  /** The task file, `tasks.json`. `present` says whether it exists, `records`
      is the list it holds, and `writes` counts the full rewrites made so far,
      so that "the file was saved" is visible even when the content is equal. */
  class TaskFile {
    var present: bool
    var records: seq<Task>
    var writes: nat

    /** The first-run state: no file yet. */
    constructor Missing()
      ensures !present && records == [] && writes == 0
    {
      present, records, writes := false, [], 0;
    }

    /** A file that already holds the given records. */
    constructor Holding(tasks: seq<Task>)
      ensures present && records == tasks && writes == 0
    {
      present, records, writes := true, tasks, 0;
    }

    /** `load_tasks`: a missing file reads as the empty list. */
    function Load(): (r: seq<Task>)
      reads this
      ensures !present ==> r == []
      ensures present ==> r == records
    {
      if present then records else []
    }

    /** `save_tasks`: overwrite (or create) the file with the whole list;
        loading afterwards gives that list back. */
    method Save(tasks: seq<Task>)
      modifies this
      ensures present && records == tasks && writes == old(writes) + 1
      ensures Load() == tasks
    {
      present, records, writes := true, tasks, writes + 1;
    }

    /** `add_task`: append a `todo` task whose id is the count of tasks plus one, and save. */
    method Add(description: string, createdAt: Timestamp, updatedAt: Timestamp) returns (id: int)
      modifies this
      ensures id == |old(Load())| + 1
      ensures Load() == Added(old(Load()), description, createdAt, updatedAt)
      ensures present && writes == old(writes) + 1
    {
      var tasks := Load();
      id := |tasks| + 1;
      var task := Task(id, description, Todo, createdAt, updatedAt);
      tasks := tasks + [task];
      Save(tasks);
    }

    /** The loop shared by `update_task` and `mark_task`: scan for the first task
        with the id, edit it in place, save and stop; without a match, report
        not found and leave the file alone. */
    method EditFirstMatch(id: int, e: Edit, now: Timestamp) returns (outcome: EditOutcome)
      modifies this
      ensures outcome == NotFound <==> forall k :: 0 <= k < |old(Load())| ==> old(Load())[k].id != id
      ensures outcome == NotFound ==> unchanged(this)
      ensures outcome == Edited ==>
        && EditFirst(old(Load()), id, e, now).Some?
        && Load() == EditFirst(old(Load()), id, e, now).value
        && present && writes == old(writes) + 1
    {
      var tasks := Load();
      var i := 0;
      while i < |tasks|
        invariant 0 <= i <= |tasks|
        invariant tasks == old(Load())
        invariant forall k :: 0 <= k < i ==> tasks[k].id != id
        invariant unchanged(this)
      {
        if tasks[i].id == id {
          assert IsFirstMatch(tasks, id, i);
          ghost var edited := EditFirst(tasks, id, e, now).value;
          tasks := tasks[i := Apply(tasks[i], e, now)];
          assert tasks == edited;
          Save(tasks);
          return Edited;
        }
        i := i + 1;
      }
      return NotFound;
    }

    /** `update_task`: give the first task with the id a new description. */
    method Update(id: int, description: string, now: Timestamp) returns (outcome: EditOutcome)
      modifies this
      ensures outcome == NotFound <==> forall k :: 0 <= k < |old(Load())| ==> old(Load())[k].id != id
      ensures outcome == NotFound ==> unchanged(this)
      ensures outcome == Edited ==>
        && EditFirst(old(Load()), id, Describe(description), now).Some?
        && Load() == EditFirst(old(Load()), id, Describe(description), now).value
        && present && writes == old(writes) + 1
    {
      outcome := EditFirstMatch(id, Describe(description), now);
    }

    /** `mark_task`: give the first task with the id a new status, whatever its current one. */
    method Mark(id: int, status: Status, now: Timestamp) returns (outcome: EditOutcome)
      modifies this
      ensures outcome == NotFound <==> forall k :: 0 <= k < |old(Load())| ==> old(Load())[k].id != id
      ensures outcome == NotFound ==> unchanged(this)
      ensures outcome == Edited ==>
        && EditFirst(old(Load()), id, SetStatus(status), now).Some?
        && Load() == EditFirst(old(Load()), id, SetStatus(status), now).value
        && present && writes == old(writes) + 1
    {
      outcome := EditFirstMatch(id, SetStatus(status), now);
    }

    /** `delete_task`: drop every task with the id and save, even if none had it. */
    method Delete(id: int)
      modifies this
      ensures Load() == Deleted(old(Load()), id)
      ensures present && writes == old(writes) + 1
    {
      var tasks := Load();
      tasks := Deleted(tasks, id);
      Save(tasks);
    }

    /** `list_tasks`: the tasks, or those with the given status, in file order,
        each as often as it occurs in the file. It changes nothing. */
    method List(filter: Option<Status>) returns (r: seq<Task>)
      ensures filter.None? ==> r == Load()
      ensures forall t :: t in r <==> t in Load() && (filter.None? || t.status == filter.value)
      ensures IsSubsequence(r, Load())
      ensures forall t :: multiset(r)[t] == if filter.None? || t.status == filter.value then multiset(Load())[t] else 0
    {
      var tasks := Load();
      ListedIsExact(tasks, filter);
      r := Listed(tasks, filter);
    }
  }
}
