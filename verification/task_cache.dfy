/** The client's copy of the server's task list (`currentTasks`) and the three
    edits a successful reply makes to it: prepend, replace the first entry
    with a given id, and drop every entry with a given id.
 */
module TaskCache {

  /** A task as the server sends it; the client never invents an id. */
  datatype Task = Task(id: int, description: string)

  /** No two cached tasks share an id. */
  ghost predicate UniqueIds(tasks: seq<Task>) {
    forall i, j :: 0 <= i < j < |tasks| ==> tasks[i].id != tasks[j].id
  }

  /** Some cached task has the id. */
  predicate HasId(tasks: seq<Task>, id: int) {
    exists i :: 0 <= i < |tasks| && tasks[i].id == id
  }

  /** `i` is the first index whose task has the id. */
  ghost predicate FirstWithId(tasks: seq<Task>, id: int, i: int) {
    && 0 <= i < |tasks|
    && tasks[i].id == id
    && forall j :: 0 <= j < i ==> tasks[j].id != id
  }

  /** `currentTasks.findIndex(task => task.id === id)`: the first index whose
      task has the id, or -1 when none has. */
  function FindIndex(tasks: seq<Task>, id: int): (i: int)
    ensures -1 <= i < |tasks|
    ensures i == -1 <==> !HasId(tasks, id)
    ensures 0 <= i ==> tasks[i].id == id && forall j :: 0 <= j < i ==> tasks[j].id != id
    decreases |tasks|
  {
    if |tasks| == 0 then -1
    else if tasks[0].id == id then 0
    else
      var k := FindIndex(tasks[1..], id);
      assert forall j :: 1 <= j < |tasks| ==> tasks[j] == tasks[1..][j - 1];
      if k == -1 then -1 else k + 1
  }

  /** `currentTasks.unshift(task)`: the task goes in front, the old list follows. */
  function Prepend(tasks: seq<Task>, task: Task): (r: seq<Task>)
    ensures |r| == |tasks| + 1
    ensures r[0] == task && r[1..] == tasks
  {
    [task] + tasks
  }

  /** The successful-update edit: the task at the first index carrying `id`
      becomes `task`; every other index keeps its task; with no such index the
      list is unchanged. */
  function ReplaceFirst(tasks: seq<Task>, id: int, task: Task): (r: seq<Task>)
    ensures |r| == |tasks|
    ensures !HasId(tasks, id) ==> r == tasks
    ensures forall i :: FirstWithId(tasks, id, i) ==>
      r[i] == task && forall k :: 0 <= k < |tasks| && k != i ==> r[k] == tasks[k]
  {
    var i := FindIndex(tasks, id);
    if i == -1 then tasks else tasks[i := task]
  }

  /** `currentTasks.filter(task => task.id !== id)`. No entry of the result has
      the id, and a task is in the result exactly when it was cached with
      another id. */
  function RemoveId(tasks: seq<Task>, id: int): (r: seq<Task>)
    ensures |r| <= |tasks|
    ensures forall i :: 0 <= i < |r| ==> r[i].id != id
    ensures forall t :: t in r <==> t in tasks && t.id != id
    decreases |tasks|
  {
    if |tasks| == 0 then []
    else
      var rest := RemoveId(tasks[1..], id);
      assert forall t :: t in tasks <==> t == tasks[0] || t in tasks[1..];
      if tasks[0].id == id then rest else [tasks[0]] + rest
  }

  /** The filter keeps relative order: it works piece by piece. */
  lemma {:induction false} RemoveIdAppend(a: seq<Task>, b: seq<Task>, id: int)
    ensures RemoveId(a + b, id) == RemoveId(a, id) + RemoveId(b, id)
    decreases |a|
  {
    if |a| == 0 {
      assert a + b == b;
    } else {
      assert (a + b)[1..] == a[1..] + b;
      RemoveIdAppend(a[1..], b, id);
    }
  }

  /** Filtering a list without the id changes nothing. */
  lemma {:induction false} RemoveAbsentId(tasks: seq<Task>, id: int)
    requires !HasId(tasks, id)
    ensures RemoveId(tasks, id) == tasks
    decreases |tasks|
  {
    if |tasks| > 0 {
      assert !HasId(tasks[1..], id) by {
        forall i | 0 <= i < |tasks| - 1 ensures tasks[1..][i].id != id {
          assert tasks[1..][i] == tasks[i + 1];
        }
      }
      RemoveAbsentId(tasks[1..], id);
      assert [tasks[0]] + tasks[1..] == tasks;
    }
  }

  /** With unique ids, a successful delete removes exactly the one entry that
      carries the id and keeps the others in order. */
  lemma RemoveUniqueId(tasks: seq<Task>, id: int, i: int)
    requires UniqueIds(tasks)
    requires 0 <= i < |tasks| && tasks[i].id == id
    ensures RemoveId(tasks, id) == tasks[..i] + tasks[i + 1..]
    ensures |RemoveId(tasks, id)| == |tasks| - 1
  {
    var before, after := tasks[..i], tasks[i + 1..];
    assert !HasId(before, id) by {
      forall j | 0 <= j < |before| ensures before[j].id != id {
        assert before[j] == tasks[j];
      }
    }
    assert !HasId(after, id) by {
      forall j | 0 <= j < |after| ensures after[j].id != id {
        assert after[j] == tasks[i + 1 + j];
      }
    }
    var tail := [tasks[i]] + after;
    assert tasks == before + tail;
    RemoveIdAppend(before, tail, id);
    RemoveAbsentId(before, id);
    assert tail[0].id == id && tail[1..] == after;
    assert RemoveId(tail, id) == RemoveId(after, id);
    RemoveAbsentId(after, id);
  }

  /** Deleting twice deletes once. */
  lemma {:induction false} RemoveIdIdempotent(tasks: seq<Task>, id: int)
    ensures RemoveId(RemoveId(tasks, id), id) == RemoveId(tasks, id)
  {
    var r := RemoveId(tasks, id);
    RemoveAbsentId(r, id);
  }

  /** Dropping entries keeps ids unique. */
  lemma {:induction false} RemoveIdKeepsUniqueIds(tasks: seq<Task>, id: int)
    requires UniqueIds(tasks)
    ensures UniqueIds(RemoveId(tasks, id))
  {
    if HasId(tasks, id) {
      var i := FindIndex(tasks, id);
      RemoveUniqueId(tasks, id, i);
      DropKeepsUniqueIds(tasks, i);
    } else {
      RemoveAbsentId(tasks, id);
    }
  }

  /** Dropping one entry keeps ids unique. */
  lemma DropKeepsUniqueIds(tasks: seq<Task>, i: int)
    requires UniqueIds(tasks) && 0 <= i < |tasks|
    ensures UniqueIds(tasks[..i] + tasks[i + 1..])
  {
    var r := tasks[..i] + tasks[i + 1..];
    forall a, b | 0 <= a < b < |r| ensures r[a].id != r[b].id {
      var a' := if a < i then a else a + 1;
      var b' := if b < i then b else b + 1;
      assert r[a] == tasks[a'] && r[b] == tasks[b'];
    }
  }

  /** Prepending a task whose id is not cached keeps ids unique. */
  lemma PrependKeepsUniqueIds(tasks: seq<Task>, task: Task)
    requires UniqueIds(tasks) && !HasId(tasks, task.id)
    ensures UniqueIds(Prepend(tasks, task))
  {
    var r := Prepend(tasks, task);
    forall a, b | 0 <= a < b < |r| ensures r[a].id != r[b].id {
      assert r[b] == tasks[b - 1];
      if a > 0 {
        assert r[a] == tasks[a - 1];
      }
    }
  }

  /** Replacing the entry for `id` by a task with the same id keeps ids unique. */
  lemma ReplaceFirstKeepsUniqueIds(tasks: seq<Task>, id: int, task: Task)
    requires UniqueIds(tasks) && task.id == id
    ensures UniqueIds(ReplaceFirst(tasks, id, task))
  {
  }
}
