/**
 * The two list operations the board view and the task engine share: selecting one
 * column's tasks (`tasks.filter(t => t.status === status)`) and ordering them by
 * position (`sort((a, b) => a.position - b.position)`, a stable sort).
 */
module TaskOrder {
  import opened Seqs
  import opened KanbanTypes

  function StatusIs(st: TaskStatus): Task -> bool {
    (t: Task) => t.status == st
  }

  function StatusIsNot(st: TaskStatus): Task -> bool {
    (t: Task) => t.status != st
  }

  /** The tasks of one column, in list order. */
  function ColumnOf(tasks: seq<Task>, st: TaskStatus): (r: seq<Task>)
    ensures forall k | 0 <= k < |r| :: r[k].status == st
    ensures forall t :: t in r <==> t in tasks && t.status == st
  {
    var r := Filter(tasks, StatusIs(st));
    assert forall t :: t in r <==> multiset(r)[t] > 0;
    r
  }

  /** Splitting by one status gives that column's tasks and all the others, together a rearrangement of the list. */
  lemma ColumnSplit(tasks: seq<Task>, st: TaskStatus)
    ensures multiset(ColumnOf(tasks, st)) + multiset(Filter(tasks, StatusIsNot(st))) == multiset(tasks)
    ensures |ColumnOf(tasks, st)| + |Filter(tasks, StatusIsNot(st))| == |tasks|
  {
    FilterPartition(tasks, StatusIs(st), StatusIsNot(st));
  }

  predicate SortedByPosition(s: seq<Task>) {
    forall i, j | 0 <= i < j < |s| :: s[i].position <= s[j].position
  }

  /** A task no later than the head of a sorted list can go in front of it. */
  lemma SortedCons(x: Task, s: seq<Task>)
    requires SortedByPosition(s)
    requires s == [] || x.position <= s[0].position
    ensures SortedByPosition([x] + s)
  {
    var r := [x] + s;
    forall i, j | 0 <= i < j < |r|
      ensures r[i].position <= r[j].position
    {
      if i == 0 && j > 1 {
        assert s[0].position <= s[j - 1].position;
      }
    }
  }

  /** Inserts `t` before the first element whose position is not smaller, so that earlier equal keys stay first. */
  function InsertByPosition(t: Task, s: seq<Task>): (r: seq<Task>)
    requires SortedByPosition(s)
    ensures SortedByPosition(r)
    ensures multiset(r) == multiset(s) + multiset{t}
    ensures |r| == |s| + 1
    ensures r[0] == t || (|s| > 0 && r[0] == s[0])
  {
    if s == [] || t.position <= s[0].position then
      SortedCons(t, s);
      [t] + s
    else
      var r' := InsertByPosition(t, s[1..]);
      assert s == [s[0]] + s[1..];
      SortedCons(s[0], r');
      [s[0]] + r'
  }

  /** The position-ordered copy of `s`: insertion sort, stable like `Array.prototype.sort`. */
  function SortByPosition(s: seq<Task>): (r: seq<Task>)
    ensures SortedByPosition(r)
    ensures multiset(r) == multiset(s)
    ensures |r| == |s|
  {
    if s == [] then []
    else
      assert s == [s[0]] + s[1..];
      InsertByPosition(s[0], SortByPosition(s[1..]))
  }

  /** Sorting a list that is already in position order returns it unchanged. */
  lemma {:induction false} SortSortedIsIdentity(s: seq<Task>)
    requires SortedByPosition(s)
    ensures SortByPosition(s) == s
    decreases |s|
  {
    if s != [] {
      SortSortedIsIdentity(s[1..]);
    }
  }
}
