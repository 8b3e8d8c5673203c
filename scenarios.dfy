/** Command sequences run against a fresh task file, showing what callers can
    conclude from the contracts of the commands alone. */
module Scenarios {
  import opened Tasks
  import opened TaskStore

  /** add, add, delete 1, add: the third task gets id 2, the id the second
      task still carries, so two tasks in the file share an id. */
  method AddAddDeleteAdd() returns (ids: seq<int>, listed: seq<Task>)
    ensures ids == [1, 2, 2]
    ensures |listed| == 2 && listed[0].id == listed[1].id == 2
    ensures listed[0].description == "b" && listed[1].description == "c"
  {
    var f := new TaskFile.Missing();
    var a := f.Add("a", "t0", "t0");
    var b := f.Add("b", "t1", "t1");
    f.Delete(1);
    var before := [Task(1, "a", Todo, "t0", "t0"), Task(2, "b", Todo, "t1", "t1")];
    assert before == [Task(1, "a", Todo, "t0", "t0")] + [Task(2, "b", Todo, "t1", "t1")];
    assert f.Load() == [Task(2, "b", Todo, "t1", "t1")] by {
      DeleteFromPositions(before, 1);
    }
    var c := f.Add("c", "t2", "t2");
    ids := [a, b, c];
    listed := f.List(None);
  }

  /** With no task file, update reports not found, nothing is written and the file still does not exist. */
  method UpdateWithoutFile() returns (outcome: EditOutcome, listed: seq<Task>, written: nat, fileExists: bool)
    ensures outcome == NotFound && listed == [] && written == 0 && !fileExists
  {
    var f := new TaskFile.Missing();
    outcome := f.Update(5, "z", "t0");
    listed := f.List(None);
    written, fileExists := f.writes, f.present;
  }

  /** add then mark-done: listing "done" shows the task, listing "todo" shows nothing. */
  method MarkDoneThenList() returns (done: seq<Task>, todo: seq<Task>)
    ensures |done| == 1 && done[0].id == 1 && done[0].description == "x" && done[0].status == Done
    ensures done[0].createdAt == "t0" && done[0].updatedAt == "t1"
    ensures todo == []
  {
    var f := new TaskFile.Missing();
    var id := f.Add("x", "t0", "t0");
    var outcome := f.Mark(id, Done, "t1");
    assert IsFirstMatch([Task(1, "x", Todo, "t0", "t0")], 1, 0);
    assert f.Load() == [Task(1, "x", Done, "t0", "t1")];
    done := f.List(Some(Done));
    todo := f.List(Some(Todo));
  }

  /** add then delete 1 twice: both deletes rewrite the file and it ends up empty. */
  method DeleteTwice() returns (listed: seq<Task>, written: nat)
    ensures listed == [] && written == 3
  {
    var f := new TaskFile.Missing();
    var id := f.Add("x", "t0", "t0");
    f.Delete(1);
    f.Delete(1);
    listed := f.List(None);
    written := f.writes;
  }
}
