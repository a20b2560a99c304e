/** `renderTasks`, abstracted from markup to a view: the empty-state
    placeholder for an empty list, otherwise one row per task in list order.
    A row keeps what varies with the task: its id (used in the element ids and
    the edit/delete handlers) and its description as it is written into the
    page, once as the shown text and once as the edit box's `value`.
 */
module Render {
  import opened HtmlEscape
  import opened TaskCache

  /** One `task-item` block. */
  datatype Row = Row(taskId: int, shownHtml: string, editValueHtml: string)

  /** What the task list holds after rendering. */
  datatype View = EmptyState | TaskRows(rows: seq<Row>)

  /** The row for one task; both copies of the description are escaped. */
  function RowOf(task: Task): Row {
    Row(task.id, EscapeHtml(task.description), EscapeHtml(task.description))
  }

  /** The `forEach` that appends one row per task. */
  function RowsOf(tasks: seq<Task>): (rows: seq<Row>)
    ensures |rows| == |tasks|
    ensures forall i :: 0 <= i < |tasks| ==> rows[i] == RowOf(tasks[i])
    decreases |tasks|
  {
    if |tasks| == 0 then []
    else
      var rest := RowsOf(tasks[1..]);
      assert forall i :: 1 <= i < |tasks| ==> tasks[i] == tasks[1..][i - 1];
      [RowOf(tasks[0])] + rest
  }

  /** `renderTasks(tasks)`: the placeholder exactly when there are no tasks;
      otherwise row `i` belongs to task `i`, shows its escaped description
      and carries it, escaped, in the edit box. */
  function RenderTasks(tasks: seq<Task>): (v: View)
    ensures v.EmptyState? <==> |tasks| == 0
    ensures v.TaskRows? ==> |v.rows| == |tasks|
    ensures v.TaskRows? ==> forall i :: 0 <= i < |tasks| ==>
      && v.rows[i].taskId == tasks[i].id
      && v.rows[i].shownHtml == EscapeHtml(tasks[i].description)
      && v.rows[i].editValueHtml == EscapeHtml(tasks[i].description)
  {
    if |tasks| == 0 then EmptyState else TaskRows(RowsOf(tasks))
  }

  /** No rendered description can open or close a tag or an attribute value,
      neither as shown text nor as the edit box's `value`, and each one reads
      back as the task's own text. */
  lemma RenderedTextIsInert(tasks: seq<Task>, i: int)
    requires 0 <= i < |tasks|
    ensures var v := RenderTasks(tasks);
      && v.TaskRows?
      && UnescapeHtml(v.rows[i].shownHtml) == tasks[i].description
      && UnescapeHtml(v.rows[i].editValueHtml) == tasks[i].description
      && (forall k :: 0 <= k < |v.rows[i].shownHtml| ==> !IsMarkupChar(v.rows[i].shownHtml[k]))
      && (forall k :: 0 <= k < |v.rows[i].editValueHtml| ==> !IsMarkupChar(v.rows[i].editValueHtml[k]))
  {
    EscapeRoundTrip(tasks[i].description);
  }

  /** Rendering after a successful add: the new task's row comes first and the
      old rows follow unchanged. */
  lemma RenderAfterPrepend(tasks: seq<Task>, task: Task)
    ensures var v := RenderTasks(Prepend(tasks, task));
      && v.TaskRows?
      && v.rows[0] == RowOf(task)
      && (RenderTasks(tasks).TaskRows? ==> v.rows[1..] == RenderTasks(tasks).rows)
      && (RenderTasks(tasks).EmptyState? ==> v.rows == [RowOf(task)])
  {
    var v := RenderTasks(Prepend(tasks, task));
    assert |v.rows[1..]| == |tasks|;
    assert forall i :: 0 <= i < |tasks| ==> v.rows[1..][i] == v.rows[i + 1];
  }
}
