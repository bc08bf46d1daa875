/**
 * The board: it splits the task list into the three columns, turns a finished drag into a
 * reorder, a move or nothing, and remembers which column the add dialog creates into.
 */
module KanbanBoard {
  import opened Wrappers
  import opened Seqs
  import opened KanbanTypes
  import opened TaskOrder
  import opened UseTasks
  import opened Text
  import AddTaskDialog

  /** Where a card was picked up or dropped: a column and an index in its displayed order. */
  datatype DraggableLocation = DraggableLocation(droppableId: TaskStatus, index: int)

  /** The drag library's report at the end of a drag; no destination when dropped outside every column. */
  datatype DropResult = DropResult(draggableId: string, source: DraggableLocation, destination: Option<DraggableLocation>)

  /** The engine call a finished drag makes, if any. */
  datatype DragAction =
    | NoAction
    | Reorder(status: TaskStatus, sourceIndex: int, destinationIndex: int)
    | Move(taskId: string, status: TaskStatus, position: int)

  /** `handleDragEnd`. */
  function DragEndAction(result: DropResult): (a: DragAction)
    ensures a.NoAction? <==> result.destination.None? || result.destination.value == result.source
    ensures a.Reorder? <==>
      && result.destination.Some?
      && result.destination.value.droppableId == result.source.droppableId
      && result.destination.value.index != result.source.index
    ensures a.Move? <==> result.destination.Some? && result.destination.value.droppableId != result.source.droppableId
    ensures a.Reorder? ==> a == Reorder(result.source.droppableId, result.source.index, result.destination.value.index)
    ensures a.Move? ==> a == Move(result.draggableId, result.destination.value.droppableId, result.destination.value.index)
  {
    if result.destination.None? then NoAction
    else
      var destination := result.destination.value;
      if destination.droppableId == result.source.droppableId && destination.index == result.source.index then NoAction
      else if result.source.droppableId == destination.droppableId then
        Reorder(result.source.droppableId, result.source.index, destination.index)
      else Move(result.draggableId, destination.droppableId, destination.index)
  }

  /** The tasks one column is given: `tasks.filter(t => t.status === column.id)`. */
  function ColumnTasks(tasks: seq<Task>, column: Column): (r: seq<Task>)
    ensures forall t :: t in r <==> t in tasks && t.status == column.id
  {
    ColumnOf(tasks, column.id)
  }

  /** Every task is shown in exactly one column. */
  lemma ColumnsShowEveryTaskOnce(tasks: seq<Task>)
    ensures forall t | t in tasks :: exists k | 0 <= k < |COLUMNS| :: t in ColumnTasks(tasks, COLUMNS[k])
    ensures forall t, i, j | 0 <= i < |COLUMNS| && 0 <= j < |COLUMNS| &&
      t in ColumnTasks(tasks, COLUMNS[i]) && t in ColumnTasks(tasks, COLUMNS[j]) :: i == j
  {
    forall t | t in tasks
      ensures exists k | 0 <= k < |COLUMNS| :: t in ColumnTasks(tasks, COLUMNS[k])
    {
      var k := match t.status case Todo => 0 case InProgress => 1 case Complete => 2;
      assert t in ColumnTasks(tasks, COLUMNS[k]);
    }
  }

  /** Together the three columns show the whole list, each task as often as it occurs in it. */
  lemma ColumnsPartitionTasks(tasks: seq<Task>)
    ensures multiset(ColumnTasks(tasks, COLUMNS[0])) + multiset(ColumnTasks(tasks, COLUMNS[1]))
          + multiset(ColumnTasks(tasks, COLUMNS[2])) == multiset(tasks)
    ensures |ColumnTasks(tasks, COLUMNS[0])| + |ColumnTasks(tasks, COLUMNS[1])| + |ColumnTasks(tasks, COLUMNS[2])| == |tasks|
  {
    var a, b, c := Filter(tasks, StatusIs(Todo)), Filter(tasks, StatusIs(InProgress)), Filter(tasks, StatusIs(Complete));
    assert ColumnTasks(tasks, COLUMNS[0]) == a;
    assert ColumnTasks(tasks, COLUMNS[1]) == b;
    assert ColumnTasks(tasks, COLUMNS[2]) == c;
    forall t: Task
      ensures (multiset(a) + multiset(b) + multiset(c))[t] == multiset(tasks)[t]
    {
      assert multiset(a)[t] == if StatusIs(Todo)(t) then multiset(tasks)[t] else 0;
    }
    assert multiset(a) + multiset(b) + multiset(c) == multiset(tasks);
    assert |multiset(a) + multiset(b) + multiset(c)| == |a| + |b| + |c|;
  }

  /** `COLUMNS.find(c => c.id === status)`: the first column with the id, if any. */
  function FindColumn(columns: seq<Column>, status: TaskStatus): (r: Option<Column>)
    ensures r.Some? ==> r.value in columns && r.value.id == status
    ensures r.Some? ==> exists k | 0 <= k < |columns| ::
      columns[k] == r.value && forall j | 0 <= j < k :: columns[j].id != status
    ensures r.None? <==> forall c | c in columns :: c.id != status
  {
    if columns == [] then None
    else if columns[0].id == status then Some(columns[0])
    else
      var r := FindColumn(columns[1..], status);
      assert forall c | c in columns[1..] :: c in columns;
      assert forall c | c in columns :: c == columns[0] || c in columns[1..];
      if r.Some? then
        var k :| 0 <= k < |columns[1..]| && columns[1..][k] == r.value
          && forall j | 0 <= j < k :: columns[1..][j].id != status;
        assert columns[k + 1] == r.value;
        assert forall j | 0 <= j < k + 1 :: columns[j].id != status by {
          forall j | 0 <= j < k + 1 ensures columns[j].id != status {
            if j > 0 { assert columns[j] == columns[1..][j - 1]; }
          }
        }
        r
      else r
  }

  /** The add dialog's heading: the title of the column it creates into, or empty when none matches. */
  function ColumnTitle(status: TaskStatus): (title: string)
    ensures exists k | 0 <= k < |COLUMNS| :: COLUMNS[k].id == status && COLUMNS[k].title == title
  {
    EachStatusHasOneColumn(status);
    match FindColumn(COLUMNS, status)
    case Some(c) => c.title
    case None => ""
  }

  /** Each status finds its own column's title, never the empty fallback. */
  lemma ColumnTitles()
    ensures ColumnTitle(Todo) == "To-Do"
    ensures ColumnTitle(InProgress) == "In Progress"
    ensures ColumnTitle(Complete) == "Complete"
  {
    assert COLUMNS[1..][1..] == [COLUMNS[2]];
  }

  class Board {
    const engine: TaskEngine
    const dialog: AddTaskDialog.Dialog
    var isAddingTask: bool
    var addingToColumn: TaskStatus

    constructor ()
      ensures fresh(engine) && fresh(dialog)
      ensures engine.tasks == [] && engine.loading
      ensures dialog.title == "" && dialog.description == ""
      ensures !isAddingTask && addingToColumn == Todo
    {
      engine := new TaskEngine();
      dialog := new AddTaskDialog.Dialog();
      isAddingTask := false;
      addingToColumn := Todo;
    }

    /** `handleAddTask`: remember the column and open the dialog. */
    method HandleAddTask(status: TaskStatus)
      modifies this
      ensures addingToColumn == status && isAddingTask
    {
      addingToColumn := status;
      isAddingTask := true;
    }

    /** The dialog's `onOpenChange`, which Cancel calls with `false`. */
    method SetAddingTask(open: bool)
      modifies this`isAddingTask
      ensures isAddingTask == open
    {
      isAddingTask := open;
    }

    /** `handleCreateTask`: create in the column last chosen with `handleAddTask`, then close the dialog. */
    method HandleCreateTask(title: string, description: string, reply: Option<Task>) returns (request: NewTask)
      modifies this, engine
      ensures request.status == old(addingToColumn) && request.title == title
      ensures request.description == if description == "" then None else Some(description)
      ensures request.position == NextPosition(old(engine.tasks), old(addingToColumn))
      ensures engine.tasks == if reply.Some? then old(engine.tasks) + [reply.value] else old(engine.tasks)
      ensures engine.loading == old(engine.loading)
      ensures !isAddingTask && addingToColumn == old(addingToColumn)
    {
      var created;
      request, created := engine.CreateTask(title, description, addingToColumn, reply);
      isAddingTask := false;
    }

    /**
     * A submit of the add dialog: when its title is not blank, the trimmed fields create a task
     * in the chosen column and the dialog closes; a blank title changes nothing.
     */
    method SubmitDialog(reply: Option<Task>) returns (request: Option<NewTask>)
      modifies this, engine, dialog
      ensures addingToColumn == old(addingToColumn) && engine.loading == old(engine.loading)
      ensures AddTaskDialog.SubmitDisabled(old(dialog.title)) ==>
        request.None? && engine.tasks == old(engine.tasks) && isAddingTask == old(isAddingTask) &&
        dialog.title == old(dialog.title) && dialog.description == old(dialog.description)
      ensures !AddTaskDialog.SubmitDisabled(old(dialog.title)) ==>
        && request.Some?
        && request.value.title == Trim(old(dialog.title))
        && request.value.description ==
           (if Trim(old(dialog.description)) == "" then None else Some(Trim(old(dialog.description))))
        && request.value.status == old(addingToColumn)
        && request.value.position == NextPosition(old(engine.tasks), old(addingToColumn))
        && engine.tasks == (if reply.Some? then old(engine.tasks) + [reply.value] else old(engine.tasks))
        && !isAddingTask && dialog.title == "" && dialog.description == ""
    {
      var submitted := dialog.HandleSubmit();
      if submitted.None? {
        return None;
      }
      var r := HandleCreateTask(submitted.value.0, submitted.value.1, reply);
      request := Some(r);
    }

    /**
     * `handleDragEnd`: make the engine call `DragEndAction` names. `ok`, `reply` and `refetch`
     * are the store's answers to that call; `issued` are the position writes of a reorder.
     */
    method HandleDragEnd(result: DropResult, ok: bool, reply: nat -> WriteOutcome, refetch: Option<seq<Task>>)
      returns (action: DragAction, request: Option<TaskPatch>, issued: seq<PositionWrite>)
      modifies engine
      ensures action == DragEndAction(result)
      ensures action.NoAction? ==> engine.tasks == old(engine.tasks) && engine.loading == old(engine.loading)
      ensures !action.Reorder? ==> issued == []
      ensures !action.Move? ==> request.None?
      ensures action.Move? ==>
        request == (if HasTask(old(engine.tasks), action.taskId) then Some(MoveRequest(action.status, action.position)) else None)
      ensures action.Move? && !HasTask(old(engine.tasks), action.taskId) ==>
        engine.tasks == old(engine.tasks) && engine.loading == old(engine.loading)
      ensures action.Move? && HasTask(old(engine.tasks), action.taskId) && ok ==>
        engine.tasks == Moved(old(engine.tasks), action.taskId, action.status, action.position)
        && engine.loading == old(engine.loading)
      ensures action.Move? && HasTask(old(engine.tasks), action.taskId) && !ok ==>
        engine.tasks == (if refetch.Some? then refetch.value
                         else Moved(old(engine.tasks), action.taskId, action.status, action.position))
        && !engine.loading
      ensures action.Reorder? && ReorderedColumn(old(engine.tasks), action.status, action.sourceIndex, action.destinationIndex).None? ==>
        engine.tasks == old(engine.tasks) && engine.loading == old(engine.loading) && issued == []
      ensures action.Reorder? && ReorderedColumn(old(engine.tasks), action.status, action.sourceIndex, action.destinationIndex).Some? ==>
        var col := ReorderedColumn(old(engine.tasks), action.status, action.sourceIndex, action.destinationIndex).value;
        && IssuedInOrder(PositionWrites(col), reply, issued, Threw(issued, reply))
        && (!Threw(issued, reply) ==> engine.tasks == ReorderedTasks(old(engine.tasks), action.status, col)
                                      && engine.loading == old(engine.loading))
        && (Threw(issued, reply) ==> engine.tasks == (if refetch.Some? then refetch.value
                                                      else ReorderedTasks(old(engine.tasks), action.status, col))
                                     && !engine.loading)
    {
      action := DragEndAction(result);
      request := None;
      issued := [];
      match action
      case NoAction =>
      case Reorder(status, sourceIndex, destinationIndex) =>
        issued := engine.ReorderTasks(status, sourceIndex, destinationIndex, reply, refetch);
      case Move(taskId, status, position) =>
        request := engine.MoveTask(taskId, status, position, ok, refetch);
    }
  }
}
