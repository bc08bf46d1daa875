/** The board's data model: task statuses, tasks and the three fixed columns. */
module KanbanTypes {
  import opened Wrappers

  /** The three statuses a task can have, written `todo`, `in_progress` and `complete` in the store. */
  datatype TaskStatus = Todo | InProgress | Complete

  /**
   * A task row. `description` is `null` in the store when absent; `createdAt` and
   * `updatedAt` are timestamps the store assigns and nothing here interprets.
   */
  datatype Task = Task(
    id: string,
    title: string,
    description: Option<string>,
    status: TaskStatus,
    position: int,
    createdAt: string,
    updatedAt: string)

  /** The colour tag of a column. */
  datatype ColorTag = TodoTag | ProgressTag | CompleteTag

  datatype Column = Column(id: TaskStatus, title: string, color: ColorTag)

  /** The board's columns, left to right. */
  const COLUMNS: seq<Column> := [
    Column(Todo, "To-Do", TodoTag),
    Column(InProgress, "In Progress", ProgressTag),
    Column(Complete, "Complete", CompleteTag)
  ]

  /** The string a status is stored and sent as. */
  function StatusName(s: TaskStatus): (name: string)
    ensures name in {"todo", "in_progress", "complete"}
  {
    match s
    case Todo => "todo"
    case InProgress => "in_progress"
    case Complete => "complete"
  }

  /** The status a stored string names, if it names one. */
  function ParseStatus(name: string): (r: Option<TaskStatus>)
    ensures r.Some? ==> StatusName(r.value) == name
  {
    if name == "todo" then Some(Todo)
    else if name == "in_progress" then Some(InProgress)
    else if name == "complete" then Some(Complete)
    else None
  }

  /** The three status names are exactly the strings a status parses from: the two conversions are inverse. */
  lemma StatusNameRoundTrip(s: TaskStatus, name: string)
    ensures ParseStatus(StatusName(s)) == Some(s)
    ensures ParseStatus(name).Some? <==> name in {"todo", "in_progress", "complete"}
  {
  }

  /** `COLUMNS` lists todo, in_progress and complete in that order, with their titles and colour tags. */
  lemma ColumnsLayout()
    ensures |COLUMNS| == 3
    ensures COLUMNS[0].id == Todo && COLUMNS[0].title == "To-Do" && COLUMNS[0].color == TodoTag
    ensures COLUMNS[1].id == InProgress && COLUMNS[1].title == "In Progress" && COLUMNS[1].color == ProgressTag
    ensures COLUMNS[2].id == Complete && COLUMNS[2].title == "Complete" && COLUMNS[2].color == CompleteTag
  {
  }

  /** Every status is the id of exactly one column. */
  lemma EachStatusHasOneColumn(s: TaskStatus)
    ensures exists k | 0 <= k < |COLUMNS| :: COLUMNS[k].id == s
    ensures forall i, j | 0 <= i < |COLUMNS| && 0 <= j < |COLUMNS| && COLUMNS[i].id == s && COLUMNS[j].id == s :: i == j
  {
    var k := match s case Todo => 0 case InProgress => 1 case Complete => 2;
    assert COLUMNS[k].id == s;
  }
}
