/**
 * One board column: its cards are its tasks in position order, and each card's drag index
 * is its place in that order.
 */
module KanbanColumn {
  import opened Wrappers
  import opened Seqs
  import opened KanbanTypes
  import opened TaskOrder
  import opened UseTasks

  /** A rendered card: the task it shows and the index it hands to the drag library. */
  datatype Card = Card(task: Task, index: nat)

  function CardTasks(cards: seq<Card>): (r: seq<Task>)
    ensures |r| == |cards| && forall i | 0 <= i < |cards| :: r[i] == cards[i].task
  {
    seq(|cards|, i requires 0 <= i < |cards| => cards[i].task)
  }

  /**
   * `[...tasks].sort((a, b) => a.position - b.position).map((task, index) => ...)`: one card
   * per task, in non-decreasing position order, with indices 0 to n - 1.
   */
  function Cards(tasks: seq<Task>): (cards: seq<Card>)
    ensures |cards| == |tasks|
    ensures forall i | 0 <= i < |cards| :: cards[i].index == i
    ensures forall i, j | 0 <= i < j < |cards| :: cards[i].task.position <= cards[j].task.position
    ensures multiset(CardTasks(cards)) == multiset(tasks)
  {
    var sorted := SortByPosition(tasks);
    var cards := seq(|sorted|, i requires 0 <= i < |sorted| => Card(sorted[i], i));
    assert CardTasks(cards) == sorted;
    cards
  }

  /** The cards of a column show the same list `reorderTasks` sorts. */
  lemma CardsAreReorderList(tasks: seq<Task>, st: TaskStatus)
    ensures CardTasks(Cards(ColumnOf(tasks, st))) == SortByPosition(ColumnOf(tasks, st))
  {
    var sorted := SortByPosition(ColumnOf(tasks, st));
    assert CardTasks(Cards(ColumnOf(tasks, st))) == sorted;
  }

  /**
   * A reorder takes its cards out of the list the column shows: dragging the card with index
   * `i` moves that very card (by `Seqs.RepositionMovesOne`, it lands at the resolved destination
   * and the other cards keep their displayed order).
   */
  lemma DragSourceIsMovedTask(tasks: seq<Task>, st: TaskStatus, i: int, to: int)
    ensures ReorderedColumn(tasks, st, i, to) == Reposition(CardTasks(Cards(ColumnOf(tasks, st))), i, to)
  {
    CardsAreReorderList(tasks, st);
  }
}
