/** Task records of the task tracker and the pure operations on a list of them:
    the filters behind `delete` and `list`, the search behind `update` and
    `mark`, and the record that `add` appends. */
module Tasks {

  datatype Option<T> = None | Some(value: T)

  /** The three statuses; the command line spells them "todo", "in-progress" and "done". */
  datatype Status = Todo | InProgress | Done

  /** An ISO-8601 timestamp as text. Where it comes from (the clock) is left to the caller. */
  type Timestamp = string

  /** One record of the task file. */
  datatype Task = Task(id: int, description: string, status: Status, createdAt: Timestamp, updatedAt: Timestamp)

  // ---------------------------------------------------------------------------
  // add

  /** The list after `add`: the new task's id is the number of tasks already
      present plus one, whatever ids those tasks carry. */
  function Added(tasks: seq<Task>, description: string, createdAt: Timestamp, updatedAt: Timestamp): (r: seq<Task>)
    ensures |r| == |tasks| + 1 && r[..|tasks|] == tasks
    ensures r[|tasks|].id == |tasks| + 1
    ensures r[|tasks|].description == description && r[|tasks|].status == Todo
    ensures r[|tasks|].createdAt == createdAt && r[|tasks|].updatedAt == updatedAt
  {
    tasks + [Task(|tasks| + 1, description, Todo, createdAt, updatedAt)]
  }

  /** Every task sits at position id - 1: the shape of a list built by `add` alone. */
  ghost predicate IdsArePositions(tasks: seq<Task>) {
    forall k :: 0 <= k < |tasks| ==> tasks[k].id == k + 1
  }

  /** No two tasks share an id. */
  ghost predicate IdsUnique(tasks: seq<Task>) {
    forall i, j :: 0 <= i < j < |tasks| ==> tasks[i].id != tasks[j].id
  }

  /** The id `add` hands out collides with an existing task exactly when some
      task already carries the number count + 1. */
  lemma AddedCollidesIff(tasks: seq<Task>, description: string, createdAt: Timestamp, updatedAt: Timestamp)
    requires IdsUnique(tasks)
    ensures IdsUnique(Added(tasks, description, createdAt, updatedAt))
        <==> forall k :: 0 <= k < |tasks| ==> tasks[k].id != |tasks| + 1
  {
  }

  /** A list built by `add` alone keeps its shape under `add`, so its ids stay unique. */
  lemma AddKeepsIdsArePositions(tasks: seq<Task>, description: string, createdAt: Timestamp, updatedAt: Timestamp)
    requires IdsArePositions(tasks)
    ensures IdsArePositions(Added(tasks, description, createdAt, updatedAt))
    ensures IdsUnique(Added(tasks, description, createdAt, updatedAt))
  {
  }

  // ---------------------------------------------------------------------------
  // update and mark

  /** The change `update` (a new description) or `mark` (a new status) makes to a task. */
  datatype Edit = Describe(description: string) | SetStatus(status: Status)

  /** The matched task after the edit: one field and `updatedAt` change; the
      id and `createdAt` never do. Any status may replace any other. */
  function Apply(t: Task, e: Edit, now: Timestamp): (r: Task)
    ensures r.id == t.id && r.createdAt == t.createdAt && r.updatedAt == now
    ensures e.Describe? ==> r.description == e.description && r.status == t.status
    ensures e.SetStatus? ==> r.status == e.status && r.description == t.description
  {
    match e
    case Describe(d) => t.(description := d, updatedAt := now)
    case SetStatus(s) => t.(status := s, updatedAt := now)
  }

  /** `i` is the position of the first task with the given id. */
  ghost predicate IsFirstMatch(tasks: seq<Task>, id: int, i: int) {
    0 <= i < |tasks| && tasks[i].id == id && forall k :: 0 <= k < i ==> tasks[k].id != id
  }

  /** The position of the first task with the given id, if any. */
  function FirstMatch(tasks: seq<Task>, id: int): (r: Option<nat>)
    ensures r.Some? ==> IsFirstMatch(tasks, id, r.value)
    ensures r.None? <==> forall k :: 0 <= k < |tasks| ==> tasks[k].id != id
  {
    if tasks == [] then None
    else if tasks[0].id == id then Some(0)
    else match FirstMatch(tasks[1..], id)
      case None => None
      case Some(i) => Some(i + 1)
  }

  lemma FirstMatchUnique(tasks: seq<Task>, id: int, i: int, j: int)
    requires IsFirstMatch(tasks, id, i) && IsFirstMatch(tasks, id, j)
    ensures i == j
  {
  }

  /** The list after `update`/`mark` edits the first task with the given id,
      or None when no task has that id (and nothing is saved). Only that one
      position changes; length and order are kept. */
  function EditFirst(tasks: seq<Task>, id: int, e: Edit, now: Timestamp): (r: Option<seq<Task>>)
    ensures r.None? <==> forall k :: 0 <= k < |tasks| ==> tasks[k].id != id
    ensures forall i {:trigger IsFirstMatch(tasks, id, i)} :: IsFirstMatch(tasks, id, i) ==>
      && r.Some? && |r.value| == |tasks|
      && r.value[i] == Apply(tasks[i], e, now)
      && forall k :: 0 <= k < |tasks| && k != i ==> r.value[k] == tasks[k]
  {
    match FirstMatch(tasks, id)
    case None => None
    case Some(j) =>
      assert forall i :: IsFirstMatch(tasks, id, i) ==> i == j by {
        forall i | IsFirstMatch(tasks, id, i) ensures i == j { FirstMatchUnique(tasks, id, i, j); }
      }
      Some(tasks[j := Apply(tasks[j], e, now)])
  }

  /** On the empty list (no task file yet) `update` and `mark` never find their task. */
  lemma EditFirstOnEmpty(id: int, e: Edit, now: Timestamp)
    ensures EditFirst([], id, e, now) == None
  {
  }

  // ---------------------------------------------------------------------------
  // delete and list: order-preserving filters

  /** Which tasks a filter keeps: `delete` keeps those with another id, `list`
      those with the requested status. */
  datatype Keep = IdOtherThan(id: int) | HasStatus(status: Status)

  predicate Keeps(k: Keep, t: Task) {
    match k
    case IdOtherThan(id) => t.id != id
    case HasStatus(s) => t.status == s
  }

  /** The tasks of `s` that `k` keeps, in their original order. */
  function Filter(s: seq<Task>, k: Keep): (r: seq<Task>)
    ensures |r| <= |s|
    ensures forall t :: t in r <==> t in s && Keeps(k, t)
  {
    if s == [] then []
    else if Keeps(k, s[0]) then [s[0]] + Filter(s[1..], k)
    else Filter(s[1..], k)
  }

  /** `r` is obtained from `s` by dropping elements, keeping the order. */
  ghost predicate IsSubsequence(r: seq<Task>, s: seq<Task>)
    decreases |s|
  {
    r == [] || (s != [] && if r[0] == s[0] then IsSubsequence(r[1..], s[1..]) else IsSubsequence(r, s[1..]))
  }

  lemma {:induction false} FilterIsSubsequence(s: seq<Task>, k: Keep)
    ensures IsSubsequence(Filter(s, k), s)
  {
    if s != [] {
      FilterIsSubsequence(s[1..], k);
      var r := Filter(s, k);
      if Keeps(k, s[0]) {
        assert r[0] == s[0] && r[1..] == Filter(s[1..], k);
      } else if r != [] {
        assert r[0] in r;
      }
    }
  }

  /** Each task occurs in the result exactly as often as in the input if kept, else not at all. */
  lemma {:induction false} FilterCounts(s: seq<Task>, k: Keep)
    ensures forall t :: multiset(Filter(s, k))[t] == if Keeps(k, t) then multiset(s)[t] else 0
  {
    if s != [] {
      FilterCounts(s[1..], k);
      assert s == [s[0]] + s[1..];
    }
  }

  lemma {:induction false} FilterIdempotent(s: seq<Task>, k: Keep)
    ensures Filter(Filter(s, k), k) == Filter(s, k)
  {
    if s != [] {
      FilterIdempotent(s[1..], k);
      if Keeps(k, s[0]) {
        var r := Filter(s, k);
        assert r[0] == s[0] && r[1..] == Filter(s[1..], k);
      }
    }
  }

  lemma {:induction false} FilterAppend(a: seq<Task>, b: seq<Task>, k: Keep)
    ensures Filter(a + b, k) == Filter(a, k) + Filter(b, k)
  {
    if a != [] {
      var ab := a + b;
      assert ab[0] == a[0] && ab[1..] == a[1..] + b;
      FilterAppend(a[1..], b, k);
      var rest := Filter(a[1..], k) + Filter(b, k);
      assert Filter(ab, k) == (if Keeps(k, a[0]) then [a[0]] + rest else rest);
      assert Filter(a, k) == (if Keeps(k, a[0]) then [a[0]] + Filter(a[1..], k) else Filter(a[1..], k));
    } else {
      assert a + b == b;
    }
  }

  lemma {:induction false} FilterKeepsAll(s: seq<Task>, k: Keep)
    requires forall i :: 0 <= i < |s| ==> Keeps(k, s[i])
    ensures Filter(s, k) == s
  {
    if s != [] {
      FilterKeepsAll(s[1..], k);
      assert [s[0]] + s[1..] == s;
    }
  }

  /** The list after `delete`: exactly the tasks whose id differs, in their original order. */
  function Deleted(tasks: seq<Task>, id: int): (r: seq<Task>)
    ensures |r| <= |tasks|
    ensures forall t :: t in r <==> t in tasks && t.id != id
  {
    Filter(tasks, IdOtherThan(id))
  }

  /** `delete` keeps order and multiplicity of the surviving tasks. */
  lemma DeletedIsExact(tasks: seq<Task>, id: int)
    ensures IsSubsequence(Deleted(tasks, id), tasks)
    ensures forall t :: multiset(Deleted(tasks, id))[t] == if t.id != id then multiset(tasks)[t] else 0
  {
    FilterIsSubsequence(tasks, IdOtherThan(id));
    FilterCounts(tasks, IdOtherThan(id));
  }

  /** Deleting twice is deleting once. */
  lemma DeleteIdempotent(tasks: seq<Task>, id: int)
    ensures Deleted(Deleted(tasks, id), id) == Deleted(tasks, id)
  {
    FilterIdempotent(tasks, IdOtherThan(id));
  }

  /** Deleting an id no task has leaves the list as it was. */
  lemma DeleteAbsentIsNoOp(tasks: seq<Task>, id: int)
    requires forall k :: 0 <= k < |tasks| ==> tasks[k].id != id
    ensures Deleted(tasks, id) == tasks
  {
    FilterKeepsAll(tasks, IdOtherThan(id));
  }

  /** On a list built by `add` alone, deleting id j removes exactly position j - 1. */
  lemma DeleteFromPositions(tasks: seq<Task>, id: int)
    requires IdsArePositions(tasks) && 1 <= id <= |tasks|
    ensures Deleted(tasks, id) == tasks[..id - 1] + tasks[id..]
  {
    var k := IdOtherThan(id);
    var a, x, b := tasks[..id - 1], tasks[id - 1], tasks[id..];
    assert tasks == a + ([x] + b);
    assert Filter(a, k) == a by { FilterKeepsAll(a, k); }
    assert Filter(b, k) == b by {
      assert forall i :: 0 <= i < |b| ==> b[i] == tasks[id + i];
      FilterKeepsAll(b, k);
    }
    assert Filter([x] + b, k) == Filter(b, k) by {
      assert ([x] + b)[0] == x && ([x] + b)[1..] == b;
    }
    FilterAppend(a, [x] + b, k);
  }

  /** The id defect: on a list built by `add` alone, deleting any task but the
      last and then adding one gives the new task the id of the last task. */
  lemma DeleteThenAddDuplicatesId(tasks: seq<Task>, id: int, description: string, createdAt: Timestamp, updatedAt: Timestamp)
    requires IdsArePositions(tasks) && 1 <= id < |tasks|
    ensures var r := Added(Deleted(tasks, id), description, createdAt, updatedAt);
      r[|r| - 1].id == tasks[|tasks| - 1].id && tasks[|tasks| - 1] in r[..|r| - 1]
    ensures !IdsUnique(Added(Deleted(tasks, id), description, createdAt, updatedAt))
  {
    DeleteFromPositions(tasks, id);
    var d := Deleted(tasks, id);
    var r := Added(d, description, createdAt, updatedAt);
    assert d[|d| - 1] == tasks[|tasks| - 1];
    assert r[|d| - 1] == d[|d| - 1];
  }

  /** Deleting the last task of a list built by `add` alone and adding again
      reuses its id without a collision: the list keeps its shape. */
  lemma DeleteLastThenAddReusesId(tasks: seq<Task>, description: string, createdAt: Timestamp, updatedAt: Timestamp)
    requires IdsArePositions(tasks) && |tasks| >= 1
    ensures var r := Added(Deleted(tasks, |tasks|), description, createdAt, updatedAt);
      r[|r| - 1].id == |tasks| && IdsArePositions(r) && IdsUnique(r)
  {
    DeleteFromPositions(tasks, |tasks|);
    var d := Deleted(tasks, |tasks|);
    assert d == tasks[..|tasks| - 1];
    AddKeepsIdsArePositions(d, description, createdAt, updatedAt);
  }

  /** The list `list` shows: all tasks, or those with the requested status. */
  function Listed(tasks: seq<Task>, filter: Option<Status>): (r: seq<Task>)
    ensures filter.None? ==> r == tasks
    ensures forall t :: t in r <==> t in tasks && (filter.None? || t.status == filter.value)
  {
    match filter
    case None => tasks
    case Some(s) => Filter(tasks, HasStatus(s))
  }

  /** Every list is an order-preserving subsequence of itself. */
  lemma {:induction false} SubsequenceOfItself(s: seq<Task>)
    ensures IsSubsequence(s, s)
  {
    if s != [] { SubsequenceOfItself(s[1..]); }
  }

  /** `list` returns the order-preserving subsequence of the tasks it shows,
      each as often as it occurs in the file. */
  lemma ListedIsExact(tasks: seq<Task>, filter: Option<Status>)
    ensures IsSubsequence(Listed(tasks, filter), tasks)
    ensures forall t :: multiset(Listed(tasks, filter))[t]
                     == if filter.None? || t.status == filter.value then multiset(tasks)[t] else 0
  {
    match filter
    case None => SubsequenceOfItself(tasks);
    case Some(s) =>
      FilterIsSubsequence(tasks, HasStatus(s));
      FilterCounts(tasks, HasStatus(s));
  }
}
