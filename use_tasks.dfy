/**
 * The task engine behind the board: an in-memory task list and a loading flag,
 * changed by fetch, create, update, delete, move and reorder. Every answer of the
 * remote store is an input of the operation that awaits it.
 */
module UseTasks {
  import opened Wrappers
  import opened Seqs
  import opened KanbanTypes
  import opened TaskOrder

  // ---------------------------------------------------------------- createTask

  /** `Math.max(...col.map(t => t.position))` for a non-empty column. */
  function MaxPosition(col: seq<Task>): (m: int)
    requires col != []
    ensures forall k | 0 <= k < |col| :: col[k].position <= m
    ensures exists k | 0 <= k < |col| :: col[k].position == m
  {
    if |col| == 1 then col[0].position
    else
      var m' := MaxPosition(col[1..]);
      assert forall k | 1 <= k < |col| :: col[k] == col[1..][k - 1];
      if col[0].position >= m' then col[0].position else m'
  }

  /**
   * The position a new task of status `st` asks for: one past the largest position in
   * that column, or 0 when the column is empty. It lies above every position in the column.
   */
  function NextPosition(tasks: seq<Task>, st: TaskStatus): (p: int)
    ensures forall t | t in tasks && t.status == st :: t.position < p
    ensures (forall t | t in tasks :: t.status != st) ==> p == 0
    ensures (exists t | t in tasks :: t.status == st) ==> exists t | t in tasks && t.status == st :: p == t.position + 1
  {
    var col := ColumnOf(tasks, st);
    if |col| > 0 then
      var m := MaxPosition(col);
      assert forall t | t in tasks && t.status == st :: t in col;
      m + 1
    else
      assert forall t | t in tasks :: t.status != st;
      0
  }

  /** The row sent to the store's insert: an empty description is sent as null. */
  datatype NewTask = NewTask(title: string, description: Option<string>, status: TaskStatus, position: int)

  /** A column "numbered in list order": its k-th task, in list order, has position k. */
  predicate ColumnNumbered(tasks: seq<Task>, st: TaskStatus) {
    var col := ColumnOf(tasks, st);
    forall k | 0 <= k < |col| :: col[k].position == k
  }

  /** When a column's positions are 0..n-1, a new task asks for position n. */
  lemma NextPositionOfNumbered(tasks: seq<Task>, st: TaskStatus)
    requires ColumnNumbered(tasks, st)
    ensures NextPosition(tasks, st) == |ColumnOf(tasks, st)|
  {
    var col := ColumnOf(tasks, st);
    if |col| > 0 {
      var m := MaxPosition(col);
      assert col[|col| - 1].position == |col| - 1;
      assert forall t | t in tasks && t.status == st :: t in col;
    } else {
      assert forall t | t in tasks :: t.status != st;
    }
  }

  /** The column of `tasks + [t]`: the old column, followed by `t` when `t` belongs to it. */
  lemma ColumnOfAppend(tasks: seq<Task>, t: Task, st: TaskStatus)
    ensures ColumnOf(tasks + [t], st) == ColumnOf(tasks, st) + (if t.status == st then [t] else [])
  {
    FilterAppend(tasks, [t], StatusIs(st));
    assert [t][1..] == [];
  }

  /**
   * Appending the record the store created keeps every column numbered, as long as the
   * store created it at the position that was asked for. Repeated creates into an empty
   * column therefore yield positions 0, 1, 2, ... in call order.
   */
  lemma CreateKeepsColumnNumbered(tasks: seq<Task>, created: Task, st: TaskStatus)
    requires ColumnNumbered(tasks, st)
    requires created.status == st ==> created.position == NextPosition(tasks, st)
    ensures ColumnNumbered(tasks + [created], st)
    ensures created.status == st ==> created.position == |ColumnOf(tasks, st)|
  {
    ColumnOfAppend(tasks, created, st);
    NextPositionOfNumbered(tasks, st);
  }

  // ---------------------------------------------------------------- updateTask

  /** `Partial<Task>`: each field that is present overwrites the task's own. */
  datatype TaskPatch = TaskPatch(
    id: Option<string>,
    title: Option<string>,
    description: Option<Option<string>>,
    status: Option<TaskStatus>,
    position: Option<int>,
    createdAt: Option<string>,
    updatedAt: Option<string>)

  const EmptyPatch := TaskPatch(None, None, None, None, None, None, None)

  /** `{ ...t, ...p }`. */
  function Merge(t: Task, p: TaskPatch): (r: Task)
    ensures p.id.Some? ==> r.id == p.id.value
    ensures p.id.None? ==> r.id == t.id
    ensures p.title.Some? ==> r.title == p.title.value
    ensures p.title.None? ==> r.title == t.title
    ensures p.description.Some? ==> r.description == p.description.value
    ensures p.description.None? ==> r.description == t.description
    ensures p.status.Some? ==> r.status == p.status.value
    ensures p.status.None? ==> r.status == t.status
    ensures p.position.Some? ==> r.position == p.position.value
    ensures p.position.None? ==> r.position == t.position
    ensures p.createdAt.Some? ==> r.createdAt == p.createdAt.value
    ensures p.createdAt.None? ==> r.createdAt == t.createdAt
    ensures p.updatedAt.Some? ==> r.updatedAt == p.updatedAt.value
    ensures p.updatedAt.None? ==> r.updatedAt == t.updatedAt
  {
    Task(p.id.GetOr(t.id), p.title.GetOr(t.title), p.description.GetOr(t.description),
         p.status.GetOr(t.status), p.position.GetOr(t.position),
         p.createdAt.GetOr(t.createdAt), p.updatedAt.GetOr(t.updatedAt))
  }

  /** Merging a patch a second time changes nothing, and merging the empty patch changes nothing. */
  lemma MergeIdempotent(t: Task, p: TaskPatch)
    ensures Merge(Merge(t, p), p) == Merge(t, p)
    ensures Merge(t, EmptyPatch) == t
  {
  }

  /** `tasks.map(t => t.id === id ? { ...t, ...p } : t)`. */
  function Patched(tasks: seq<Task>, id: string, p: TaskPatch): (r: seq<Task>)
    ensures |r| == |tasks|
    ensures forall k | 0 <= k < |tasks| && tasks[k].id == id :: r[k] == Merge(tasks[k], p)
    ensures forall k | 0 <= k < |tasks| && tasks[k].id != id :: r[k] == tasks[k]
  {
    seq(|tasks|, k requires 0 <= k < |tasks| => if tasks[k].id == id then Merge(tasks[k], p) else tasks[k])
  }

  // ---------------------------------------------------------------- deleteTask

  function IdIsNot(id: string): Task -> bool {
    (t: Task) => t.id != id
  }

  /** `tasks.filter(t => t.id !== id)`. */
  function Without(tasks: seq<Task>, id: string): (r: seq<Task>)
    ensures forall k | 0 <= k < |r| :: r[k].id != id
    ensures forall t: Task | t.id != id :: multiset(r)[t] == multiset(tasks)[t]
  {
    Filter(tasks, IdIsNot(id))
  }

  /**
   * Deleting keeps the remaining tasks in their order: removing from a concatenation removes
   * from each part, and a list without the id is left exactly as it was.
   */
  lemma WithoutKeepsOrder(a: seq<Task>, b: seq<Task>, id: string)
    ensures Without(a + b, id) == Without(a, id) + Without(b, id)
    ensures (forall k | 0 <= k < |a| :: a[k].id != id) ==> Without(a, id) == a
  {
    FilterAppend(a, b, IdIsNot(id));
    if forall k | 0 <= k < |a| :: a[k].id != id {
      FilterKeepsAll(a, IdIsNot(id));
    }
  }

  // ---------------------------------------------------------------- moveTask

  predicate HasTask(tasks: seq<Task>, id: string) {
    exists k | 0 <= k < |tasks| :: tasks[k].id == id
  }

  /** `tasks.map(t => t.id === id ? { ...t, status: st, position: pos } : t)`. */
  function Moved(tasks: seq<Task>, id: string, st: TaskStatus, pos: int): (r: seq<Task>)
    ensures |r| == |tasks|
    ensures forall k | 0 <= k < |tasks| && tasks[k].id == id :: r[k] == tasks[k].(status := st, position := pos)
    ensures forall k | 0 <= k < |tasks| && tasks[k].id != id :: r[k] == tasks[k]
  {
    seq(|tasks|, k requires 0 <= k < |tasks| => if tasks[k].id == id then tasks[k].(status := st, position := pos) else tasks[k])
  }

  /** The body of the store update a move sends: `{ status, position }`. */
  function MoveRequest(st: TaskStatus, pos: int): (p: TaskPatch)
    ensures p.status == Some(st) && p.position == Some(pos)
    ensures p.id.None? && p.title.None? && p.description.None? && p.createdAt.None? && p.updatedAt.None?
  {
    EmptyPatch.(status := Some(st), position := Some(pos))
  }

  /** The local effect of a move is exactly an update with the patch the move sends to the store. */
  lemma MoveIsUpdate(tasks: seq<Task>, id: string, st: TaskStatus, pos: int)
    ensures Moved(tasks, id, st, pos) == Patched(tasks, id, MoveRequest(st, pos))
  {
    var a, b := Moved(tasks, id, st, pos), Patched(tasks, id, MoveRequest(st, pos));
    assert forall k | 0 <= k < |tasks| :: a[k] == b[k];
  }

  /** A move leaves every other task where it was: other positions are not renumbered. */
  lemma MoveKeepsOthers(tasks: seq<Task>, id: string, st: TaskStatus, pos: int, k: int)
    requires 0 <= k < |tasks| && tasks[k].id != id
    ensures Moved(tasks, id, st, pos)[k].position == tasks[k].position
    ensures Moved(tasks, id, st, pos)[k].status == tasks[k].status
  {
  }

  // ---------------------------------------------------------------- reorderTasks

  /** `col.map((task, index) => ({ ...task, position: index }))`. */
  function Renumber(col: seq<Task>): (r: seq<Task>)
    ensures |r| == |col|
    ensures forall k | 0 <= k < |col| :: r[k] == col[k].(position := k)
  {
    seq(|col|, k requires 0 <= k < |col| => col[k].(position := k))
  }

  /** One store update a reorder issues: `update({ position }).eq('id', id)`. */
  datatype PositionWrite = PositionWrite(id: string, position: int)

  /**
   * How one awaited store write ended: done, answered with an error object (which the
   * reorder loop does not look at), or thrown.
   */
  datatype WriteOutcome = Written | Rejected | Thrown

  /** `col.map((task, index) => ({ id: task.id, position: index }))`. */
  function PositionWrites(col: seq<Task>): (w: seq<PositionWrite>)
    ensures |w| == |col|
    ensures forall k | 0 <= k < |col| :: w[k] == PositionWrite(col[k].id, k)
  {
    seq(|col|, k requires 0 <= k < |col| => PositionWrite(col[k].id, k))
  }

  /** The column in its new order, before renumbering: sorted by position, then one card moved. */
  function ReorderedColumn(tasks: seq<Task>, st: TaskStatus, from: int, to: int): (r: Option<seq<Task>>)
    ensures r.Some? <==> SpliceIndex(from, |ColumnOf(tasks, st)|) < |ColumnOf(tasks, st)|
    ensures r.Some? ==> |r.value| == |ColumnOf(tasks, st)| && multiset(r.value) == multiset(ColumnOf(tasks, st))
  {
    Reposition(SortByPosition(ColumnOf(tasks, st)), from, to)
  }

  /** The list after a reorder: every task of another status first, in list order, then the renumbered column. */
  function ReorderedTasks(tasks: seq<Task>, st: TaskStatus, col: seq<Task>): seq<Task> {
    Filter(tasks, StatusIsNot(st)) + Renumber(col)
  }

  /** A task with its position blanked out: what a reorder must keep of every task. */
  function Unplaced(s: seq<Task>): (r: seq<Task>)
    ensures |r| == |s|
    ensures forall k | 0 <= k < |s| :: r[k] == s[k].(position := 0)
  {
    seq(|s|, k requires 0 <= k < |s| => s[k].(position := 0))
  }

  lemma UnplacedAppend(a: seq<Task>, b: seq<Task>)
    ensures Unplaced(a + b) == Unplaced(a) + Unplaced(b)
  {
  }

  /** A list is its prefix before `k`, the element at `k` and the suffix after it. */
  lemma SplitAround(s: seq<Task>, k: nat)
    requires k < |s|
    ensures s == s[..k] + [s[k]] + s[k + 1..]
  {
  }

  /** Taking the element at `k` out of a list takes its blanked copy out of the blanked list. */
  lemma UnplacedRemove(b: seq<Task>, k: nat)
    requires k < |b|
    ensures multiset(Unplaced(b)) == multiset(Unplaced(b[..k] + b[k + 1..])) + multiset{b[k].(position := 0)}
  {
    var left, x, right := b[..k], b[k], b[k + 1..];
    SplitAround(b, k);
    UnplacedAppend(left + [x], right);
    UnplacedAppend(left, [x]);
    UnplacedAppend(left, right);
    var u := Unplaced([x]);
    assert u == [x.(position := 0)];
    calc {
      multiset(Unplaced(b));
      multiset(Unplaced(left) + u + Unplaced(right));
      multiset(Unplaced(left)) + multiset(u) + multiset(Unplaced(right));
      multiset(Unplaced(left) + Unplaced(right)) + multiset(u);
      multiset(Unplaced(left + right)) + multiset{x.(position := 0)};
    }
  }

  /** The element at `k` of `b`, taken out, leaves the rest of the multiset. */
  lemma RemoveFromMultiset(b: seq<Task>, k: nat)
    requires k < |b|
    ensures multiset(b[..k] + b[k + 1..]) == multiset(b) - multiset{b[k]}
  {
    SplitAround(b, k);
  }

  /** The first element of a rearranged list sits somewhere in the other, and the rests still match. */
  lemma PermuteStep(a: seq<Task>, b: seq<Task>)
    requires a != [] && multiset(a) == multiset(b)
    ensures exists k | 0 <= k < |b| :: b[k] == a[0] && multiset(a[1..]) == multiset(b[..k] + b[k + 1..])
  {
    assert a[0] in multiset(b);
    assert a[0] in b;
    var k :| 0 <= k < |b| && b[k] == a[0];
    RemoveFromMultiset(b, k);
    RemoveFirstFromMultiset(a);
  }

  /** The first element of `a`, taken out, leaves the rest of the multiset. */
  lemma RemoveFirstFromMultiset(a: seq<Task>)
    requires a != []
    ensures multiset(a[1..]) == multiset(a) - multiset{a[0]}
  {
    assert a == [a[0]] + a[1..];
  }

  /** Blanking the first element off a list. */
  lemma UnplacedFirst(a: seq<Task>)
    requires a != []
    ensures multiset(Unplaced(a)) == multiset(Unplaced(a[1..])) + multiset{a[0].(position := 0)}
  {
    var u := Unplaced(a[1..]);
    assert Unplaced(a) == [a[0].(position := 0)] + u;
  }

  /** Rearranged lists stay rearrangements of each other once positions are blanked out. */
  lemma {:induction false} UnplacedPermutes(a: seq<Task>, b: seq<Task>)
    requires multiset(a) == multiset(b)
    ensures multiset(Unplaced(a)) == multiset(Unplaced(b))
    decreases |a|
  {
    if a != [] {
      PermuteStep(a, b);
      var k :| 0 <= k < |b| && b[k] == a[0] && multiset(a[1..]) == multiset(b[..k] + b[k + 1..]);
      UnplacedPermutes(a[1..], b[..k] + b[k + 1..]);
      UnplacedRemove(b, k);
      UnplacedFirst(a);
    } else {
      assert b == [];
    }
  }

  /** Every task a reorder puts into the column comes from that column. */
  lemma ReorderedColumnMembers(tasks: seq<Task>, st: TaskStatus, from: int, to: int)
    requires ReorderedColumn(tasks, st, from, to).Some?
    ensures var col := ReorderedColumn(tasks, st, from, to).value;
      forall k | 0 <= k < |col| :: col[k].status == st
  {
    var column := ColumnOf(tasks, st);
    var col := ReorderedColumn(tasks, st, from, to).value;
    assert multiset(col) == multiset(column);
    forall k | 0 <= k < |col| ensures col[k].status == st {
      assert col[k] in multiset(column);
      assert col[k] in column;
    }
  }

  /** Putting any rearrangement of a column back after the other tasks, renumbered, only rearranges the list and renumbers positions. */
  lemma ReorderedTasksPermute(tasks: seq<Task>, st: TaskStatus, col: seq<Task>)
    requires multiset(col) == multiset(ColumnOf(tasks, st))
    ensures var r := ReorderedTasks(tasks, st, col);
      |r| == |tasks| && multiset(Unplaced(r)) == multiset(Unplaced(tasks))
  {
    var others := Filter(tasks, StatusIsNot(st));
    var column := ColumnOf(tasks, st);
    ColumnSplit(tasks, st);
    calc {
      multiset(others + col);
      multiset(others) + multiset(col);
      multiset(others) + multiset(column);
      multiset(tasks);
    }
    assert |col| == |multiset(col)| == |multiset(column)| == |column|;
    assert Unplaced(Renumber(col)) == Unplaced(col);
    UnplacedAppend(others, Renumber(col));
    UnplacedAppend(others, col);
    UnplacedPermutes(others + col, tasks);
  }

  /**
   * A reorder only rearranges the list and renumbers positions: ignoring positions, the new
   * list is a permutation of the old one.
   */
  lemma ReorderPermutes(tasks: seq<Task>, st: TaskStatus, from: int, to: int)
    requires ReorderedColumn(tasks, st, from, to).Some?
    ensures var r := ReorderedTasks(tasks, st, ReorderedColumn(tasks, st, from, to).value);
      |r| == |tasks| && multiset(Unplaced(r)) == multiset(Unplaced(tasks))
  {
    ReorderedTasksPermute(tasks, st, ReorderedColumn(tasks, st, from, to).value);
  }

  /** The reordered column of the new list is the renumbered new order. */
  lemma ReorderedOwnColumn(tasks: seq<Task>, st: TaskStatus, col: seq<Task>)
    requires forall k | 0 <= k < |col| :: col[k].status == st
    ensures ColumnOf(ReorderedTasks(tasks, st, col), st) == Renumber(col)
  {
    var others := Filter(tasks, StatusIsNot(st));
    var renumbered := Renumber(col);
    assert forall k | 0 <= k < |others| :: !StatusIs(st)(others[k]);
    FilterDropsAll(others, StatusIs(st));
    assert forall k | 0 <= k < |renumbered| :: StatusIs(st)(renumbered[k]);
    FilterKeepsAll(renumbered, StatusIs(st));
    FilterAppend(others, renumbered, StatusIs(st));
  }

  /** Putting a column back renumbered leaves that column numbered 0..n-1 in the given order. */
  lemma ReorderedOwnNumbered(tasks: seq<Task>, st: TaskStatus, col: seq<Task>)
    requires forall k | 0 <= k < |col| :: col[k].status == st
    ensures ColumnOf(ReorderedTasks(tasks, st, col), st) == Renumber(col)
    ensures ColumnNumbered(ReorderedTasks(tasks, st, col), st)
  {
    ReorderedOwnColumn(tasks, st, col);
    var shown := Renumber(col);
    assert forall k | 0 <= k < |shown| :: shown[k].position == k;
  }

  /** Every other column of the new list is the same list of tasks as before the reorder. */
  lemma ReorderedOtherColumn(tasks: seq<Task>, st: TaskStatus, col: seq<Task>, other: TaskStatus)
    requires forall k | 0 <= k < |col| :: col[k].status == st
    requires other != st
    ensures ColumnOf(ReorderedTasks(tasks, st, col), other) == ColumnOf(tasks, other)
  {
    var others := Filter(tasks, StatusIsNot(st));
    var renumbered := Renumber(col);
    assert forall k | 0 <= k < |renumbered| :: !StatusIs(other)(renumbered[k]);
    FilterDropsAll(renumbered, StatusIs(other));
    FilterAppend(others, renumbered, StatusIs(other));
    assert forall t :: StatusIs(other)(t) ==> StatusIsNot(st)(t);
    FilterNested(tasks, StatusIsNot(st), StatusIs(other));
  }

  /** After a reorder, the reordered column holds exactly the renumbered new order, numbered 0..n-1. */
  lemma ReorderRenumbersColumn(tasks: seq<Task>, st: TaskStatus, from: int, to: int)
    requires ReorderedColumn(tasks, st, from, to).Some?
    ensures var col := ReorderedColumn(tasks, st, from, to).value;
      var r := ReorderedTasks(tasks, st, col);
      ColumnOf(r, st) == Renumber(col) && ColumnNumbered(r, st)
  {
    var col := ReorderedColumn(tasks, st, from, to).value;
    ReorderedColumnMembers(tasks, st, from, to);
    ReorderedOwnNumbered(tasks, st, col);
  }

  /** A reorder leaves every other column the same list of tasks as before. */
  lemma ReorderKeepsOtherColumns(tasks: seq<Task>, st: TaskStatus, from: int, to: int, other: TaskStatus)
    requires ReorderedColumn(tasks, st, from, to).Some?
    requires other != st
    ensures var col := ReorderedColumn(tasks, st, from, to).value;
      ColumnOf(ReorderedTasks(tasks, st, col), other) == ColumnOf(tasks, other)
  {
    var col := ReorderedColumn(tasks, st, from, to).value;
    ReorderedColumnMembers(tasks, st, from, to);
    ReorderedOtherColumn(tasks, st, col, other);
  }

  /** The column the board shows after a reorder (sorted by position) is the renumbered new order itself. */
  lemma ReorderShownOrder(tasks: seq<Task>, st: TaskStatus, from: int, to: int)
    requires ReorderedColumn(tasks, st, from, to).Some?
    ensures var col := ReorderedColumn(tasks, st, from, to).value;
      SortByPosition(ColumnOf(ReorderedTasks(tasks, st, col), st)) == Renumber(col)
  {
    var col := ReorderedColumn(tasks, st, from, to).value;
    ReorderRenumbersColumn(tasks, st, from, to);
    SortSortedIsIdentity(Renumber(col));
  }

  /**
   * For a source and a destination index inside the column, the column shown after a reorder
   * is the old shown order with the card at `from` moved to `to`, and its k-th card has
   * position k.
   */
  lemma ReorderMovesOneCard(tasks: seq<Task>, st: TaskStatus, from: int, to: int, k: int)
    requires var n := |ColumnOf(tasks, st)|; 0 <= from < n && 0 <= to < n && 0 <= k < n
    ensures ReorderedColumn(tasks, st, from, to).Some?
    ensures var shown := SortByPosition(ColumnOf(tasks, st));
      var now := SortByPosition(ColumnOf(ReorderedTasks(tasks, st, ReorderedColumn(tasks, st, from, to).value), st));
      && |now| == |shown|
      && now[k] == (if k == to then shown[from]
                    else if from <= k < to then shown[k + 1]
                    else if to < k <= from then shown[k - 1]
                    else shown[k]).(position := k)
  {
    var shown := SortByPosition(ColumnOf(tasks, st));
    RepositionAt(shown, from, to, k);
    ReorderShownOrder(tasks, st, from, to);
  }

  /** The writes a reorder issues carry, in order, the id and the new position of each task of the new column. */
  lemma ReorderWritesMatchList(tasks: seq<Task>, st: TaskStatus, col: seq<Task>, k: int)
    requires 0 <= k < |col|
    ensures var r := ReorderedTasks(tasks, st, col);
      var i := |r| - |col| + k;
      0 <= i < |r| && PositionWrites(col)[k] == PositionWrite(r[i].id, r[i].position) && r[i].position == k
  {
  }

  // ---------------------------------------------------------------- the engine

  class TaskEngine {
    var tasks: seq<Task>
    var loading: bool

    /** The hook's initial state: no tasks, loading. */
    constructor ()
      ensures tasks == [] && loading
    {
      tasks := [];
      loading := true;
    }

    /**
     * `fetchTasks`: `rows` is the store's answer to the ordered select, `None` when it failed.
     * The list becomes the rows or stays as it was; loading ends either way.
     */
    method FetchTasks(rows: Option<seq<Task>>)
      modifies this
      ensures tasks == if rows.Some? then rows.value else old(tasks)
      ensures !loading
    {
      if rows.Some? {
        tasks := rows.value;
      }
      loading := false;
    }

    /**
     * `createTask`: `reply` is the record the store's insert returned, `None` when it failed.
     * Returns the row sent to the insert and the created task (null on failure).
     */
    method CreateTask(title: string, description: string, status: TaskStatus, reply: Option<Task>)
      returns (request: NewTask, created: Option<Task>)
      modifies this
      ensures request == NewTask(title, if description == "" then None else Some(description),
                                 status, NextPosition(old(tasks), status))
      ensures created == reply
      ensures tasks == if reply.Some? then old(tasks) + [reply.value] else old(tasks)
      ensures loading == old(loading)
    {
      var position := NextPosition(tasks, status);
      request := NewTask(title, if description == "" then None else Some(description), status, position);
      if reply.Some? {
        tasks := tasks + [reply.value];
      }
      created := reply;
    }

    /** `updateTask`: the merge is applied only once the store has accepted the update (`ok`). */
    method UpdateTask(id: string, updates: TaskPatch, ok: bool)
      modifies this
      ensures tasks == if ok then Patched(old(tasks), id, updates) else old(tasks)
      ensures loading == old(loading)
    {
      if ok {
        tasks := Patched(tasks, id, updates);
      }
    }

    /** `deleteTask`: the task leaves the list only once the store has deleted it (`ok`). */
    method DeleteTask(id: string, ok: bool)
      modifies this
      ensures tasks == if ok then Without(old(tasks), id) else old(tasks)
      ensures loading == old(loading)
    {
      if ok {
        tasks := Without(tasks, id);
      }
    }

    /**
     * `moveTask`: with no task of that id nothing happens and no request is sent. Otherwise the
     * move is applied at once, the returned patch is sent, and when the store fails (`!ok`) the
     * list is reloaded from `refetch` (the answer of the `fetchTasks` that follows).
     */
    method MoveTask(taskId: string, newStatus: TaskStatus, newPosition: int, ok: bool, refetch: Option<seq<Task>>)
      returns (request: Option<TaskPatch>)
      modifies this
      ensures request == if HasTask(old(tasks), taskId) then Some(MoveRequest(newStatus, newPosition)) else None
      ensures !HasTask(old(tasks), taskId) ==> tasks == old(tasks) && loading == old(loading)
      ensures HasTask(old(tasks), taskId) && ok ==>
        tasks == Moved(old(tasks), taskId, newStatus, newPosition) && loading == old(loading)
      ensures HasTask(old(tasks), taskId) && !ok ==>
        tasks == (if refetch.Some? then refetch.value else Moved(old(tasks), taskId, newStatus, newPosition)) && !loading
    {
      if !HasTask(tasks, taskId) {
        return None;
      }
      tasks := Moved(tasks, taskId, newStatus, newPosition);
      request := Some(MoveRequest(newStatus, newPosition));
      if !ok {
        FetchTasks(refetch);
      }
    }

    /**
     * `reorderTasks`: sort the column, splice one card from `sourceIndex` to `destinationIndex`
     * (see `ReorderedColumn`), then apply and write the new order (see `ApplyOrder`). Returns the
     * writes issued. When the source index does not name a card, building the writes throws
     * before anything changes.
     */
    method ReorderTasks(status: TaskStatus, sourceIndex: int, destinationIndex: int,
                        reply: nat -> WriteOutcome, refetch: Option<seq<Task>>)
      returns (issued: seq<PositionWrite>)
      modifies this
      ensures ReorderedColumn(old(tasks), status, sourceIndex, destinationIndex).None? ==>
        tasks == old(tasks) && loading == old(loading) && issued == []
      ensures ReorderedColumn(old(tasks), status, sourceIndex, destinationIndex).Some? ==>
        var col := ReorderedColumn(old(tasks), status, sourceIndex, destinationIndex).value;
        var threw := Threw(issued, reply);
        && IssuedInOrder(PositionWrites(col), reply, issued, threw)
        && (!threw ==> tasks == ReorderedTasks(old(tasks), status, col) && loading == old(loading))
        && (threw ==> tasks == (if refetch.Some? then refetch.value else ReorderedTasks(old(tasks), status, col))
                      && !loading)
    {
      var moved := ReorderedColumn(tasks, status, sourceIndex, destinationIndex);
      if moved.None? {
        return [];
      }
      issued := ApplyOrder(status, moved.value, reply, refetch);
    }

    /**
     * The second half of `reorderTasks`, for the column in its new order `col`: apply the
     * renumbered column at once, then await one position write per column task in order (see
     * `IssueWrites`); a thrown write reloads the list from `refetch`.
     */
    method ApplyOrder(status: TaskStatus, col: seq<Task>, reply: nat -> WriteOutcome, refetch: Option<seq<Task>>)
      returns (issued: seq<PositionWrite>)
      modifies this
      ensures IssuedInOrder(PositionWrites(col), reply, issued, Threw(issued, reply))
      ensures !Threw(issued, reply) ==> tasks == ReorderedTasks(old(tasks), status, col) && loading == old(loading)
      ensures Threw(issued, reply) ==>
        tasks == (if refetch.Some? then refetch.value else ReorderedTasks(old(tasks), status, col)) && !loading
    {
      var updates := PositionWrites(col);
      tasks := Filter(tasks, StatusIsNot(status)) + Renumber(col);
      var threw;
      issued, threw := IssueWrites(updates, reply);
      if threw {
        FetchTasks(refetch);
      }
    }
  }

  /** The last write issued threw: the loop stopped there. */
  predicate Threw(issued: seq<PositionWrite>, reply: nat -> WriteOutcome) {
    issued != [] && reply(|issued| - 1) == Thrown
  }

  /**
   * `issued` is what a loop that awaits `writes` one by one sends: a prefix of `writes` that
   * stops right after the first write that throws, and runs to the end when none throws. A
   * write answered with an error object does not stop it.
   */
  predicate IssuedInOrder(writes: seq<PositionWrite>, reply: nat -> WriteOutcome, issued: seq<PositionWrite>, threw: bool) {
    && |issued| <= |writes| && issued == writes[..|issued|]
    && (forall j | 0 <= j < |issued| - 1 :: reply(j) != Thrown)
    && (threw <==> Threw(issued, reply))
    && (!threw ==> issued == writes)
  }

  /**
   * `for (const update of updates) await store.update(update)` inside `try`: issue the writes in
   * order until one throws. `reply(k)` is how the k-th write ends.
   */
  method IssueWrites(updates: seq<PositionWrite>, reply: nat -> WriteOutcome)
    returns (issued: seq<PositionWrite>, threw: bool)
    ensures IssuedInOrder(updates, reply, issued, threw)
  {
    issued := [];
    threw := false;
    var k := 0;
    while k < |updates| && !threw
      invariant 0 <= k <= |updates|
      invariant issued == updates[..k]
      invariant forall j | 0 <= j < k - 1 :: reply(j) != Thrown
      invariant threw <==> k > 0 && reply(k - 1) == Thrown
    {
      issued := issued + [updates[k]];
      threw := reply(k) == Thrown;
      k := k + 1;
    }
  }
}
