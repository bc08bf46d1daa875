# A verified model of a kanban board's task engine and chat stream reader

The system is a single-page kanban board. Tasks live in three fixed columns (To-Do,
In Progress, Complete) and are kept in a remote table. A small chat panel streams answers
from a language-model endpoint. This project models, in Dafny, the parts of the
TypeScript front end that carry logic:

- **the task engine** (`useTasks`): an in-memory task list plus a `loading` flag, changed by
  fetch, create, update, delete, move and reorder. It is the class `UseTasks.TaskEngine`.
  Every answer of the remote store is an input of the method that awaits it. The reorder
  (sort the column by position, splice one card out and back in, renumber 0..n-1, put the
  column after the other tasks, write every position in order) is specified by the functions
  `ReorderedColumn`/`ReorderedTasks` and proved to be a permutation that keeps the other
  columns and renumbers the reordered one;
- **the chat stream reader** (`streamChat`), a stateful decoder for a subset of server-sent
  events (section 9.2 of the WHATWG HTML Living Standard):
  - LF-only line splitting, one trailing CR removed;
  - `:` comments and blank lines skipped, only `data: ` (with the space) accepted;
  - `[DONE]` stops the inner loop, and an unparseable payload is put back.

  The nested loops are the methods `AIChatbot.ChatPanel.StreamChat` / `ReadLines` /
  `HandleLine`. They are proved against the functions `ChatStream.Feed` / `Drain` /
  `LineStep`, and whole-stream properties are proved about those functions. The main ones:
  - when no line is `[DONE]` or an unparseable payload, the reply is the in-order concatenation of the fragments of the complete lines;
  - chunking does not matter when no line stops the loop;
  - the text after the last newline is never used;
- **the board rules**:
  - drag-end dispatch into reorder, move or nothing;
  - the per-column filter, every task in exactly one column;
  - position-sorted cards with indices 0..n-1, agreeing with the reorder's sort;
  - the trim/blank validators of the card editor and the add dialog;
  - the `Task`/`TaskStatus`/`COLUMNS` data model.

Modules follow the source files. Supporting modules:
- `Wrappers`: `Option`;
- `Text`: JavaScript `trim`, `startsWith`, `endsWith`, `indexOf`;
- `Seqs`: `filter`, `splice` index resolution, a one-element move;
- `TaskOrder`: the column filter and the stable position sort shared by the column view and the reorder.

`JSON.parse(payload).choices?.[0]?.delta?.content` is the abstract function
`parse: string -> Parse`, which gives `Unparseable` or `Parsed(optional content)`. A payload
that parses but lacks that path gives `Parsed(None)`. A payload that parses to `null` gives
`Unparseable`: reading `parsed.choices` on `null` throws before `?.` applies
(`src/components/chat/AIChatbot.tsx:79`), and the catch at line 92 puts the line back.

Two points where the code differs from what one might expect; the model follows the code:
- `[DONE]` breaks only the inner loop (`src/components/chat/AIChatbot.tsx:75`). The lines after it
  in the buffer are handled when the next chunk arrives, and are lost only when the reader
  reports the end. `ChatStream.DoneDefersTheRest` states this. A reader of the stream format
  would expect `[DONE]` to end the reply.
- An unparseable complete line is put back in front of the buffer. Every later chunk finds it
  first again, so nothing after it is ever added to the reply (`ChatStream.BlockedStreamAddsNothing`).

## Model

| member | source | states |
|---|---|---|
| KanbanTypes.ParseStatus | src/types/kanban.ts:1 | a parsed status is one whose stored name is the parsed string |
| KanbanTypes.StatusName | src/types/kanban.ts:1 | a status is stored as one of the three names `todo`, `in_progress`, `complete` |
| KanbanTypes.StatusNameRoundTrip | src/types/kanban.ts:1 | the stored names round-trip, and exactly "todo", "in_progress" and "complete" parse |
| KanbanTypes.ColumnsLayout | src/types/kanban.ts:19-23 | three columns: todo/To-Do/todo tag, in_progress/In Progress/progress tag, complete/Complete/complete tag, in that order |
| KanbanTypes.EachStatusHasOneColumn | src/types/kanban.ts:19-23 | every status is the id of exactly one column |
| Seqs.Filter | src/hooks/useTasks.ts:131-132 | `filter` keeps only passing elements, each as often as it occurs, and is never longer |
| Seqs.FilterAppend | src/hooks/useTasks.ts:146 | filtering distributes over concatenation, so relative order is preserved |
| Seqs.FilterKeepsAll | src/hooks/useTasks.ts:146 | a list whose every element passes is left as it is |
| Seqs.FilterDropsAll | src/hooks/useTasks.ts:146 | a list no element of which passes becomes empty |
| Seqs.FilterNested | src/hooks/useTasks.ts:146 | filtering by a weaker then a stronger predicate is filtering by the stronger one |
| Seqs.FilterPartition | src/hooks/useTasks.ts:131-146 | complementary filters split a list into two parts holding every element once |
| Seqs.SpliceIndex | src/hooks/useTasks.ts:135-136 | `splice` start resolution: negative counts from the end (floor 0), past the end clamps to the length |
| Seqs.MoveElementPermutes | src/hooks/useTasks.ts:135-136 | taking an element out and inserting it elsewhere is a permutation |
| Seqs.Reposition | src/hooks/useTasks.ts:135-136 | the two splices give a result exactly when the source resolves inside the list, and that result is a permutation of the same length |
| Seqs.RepositionAt | src/hooks/useTasks.ts:135-136 | for in-range indices: the moved element lands at `to`, those between shift by one, the rest stay (so [A,B,C,D] with 0 to 2 gives [B,C,A,D]) |
| Seqs.RepositionMovesOne | src/hooks/useTasks.ts:135-136 | the source element lands at the resolved destination and the others keep their order around it |
| TaskOrder.ColumnOf | src/hooks/useTasks.ts:131-132 | the column holds exactly the tasks of that status |
| TaskOrder.ColumnSplit | src/hooks/useTasks.ts:146 | a column and the other tasks together are a permutation of the list |
| TaskOrder.InsertByPosition | src/hooks/useTasks.ts:133 | inserting into a position-sorted list keeps it sorted and adds exactly that task |
| TaskOrder.SortByPosition | src/hooks/useTasks.ts:133 | the sort is in non-decreasing position order and a permutation of its input |
| TaskOrder.SortSortedIsIdentity | src/hooks/useTasks.ts:133 | an already sorted list is returned unchanged (stability on sorted input) |
| UseTasks.MaxPosition | src/hooks/useTasks.ts:32-34 | `Math.max` of a non-empty column's positions: an upper bound that is attained |
| UseTasks.NextPosition | src/hooks/useTasks.ts:31-42 | the requested position is above every position of the column, 0 for an empty column, else one past an existing position |
| UseTasks.NextPositionOfNumbered | src/hooks/useTasks.ts:31-42 | for a column numbered 0..n-1 the new task asks for n |
| UseTasks.ColumnOfAppend | src/hooks/useTasks.ts:48 | appending a task extends its own column at the end and no other |
| UseTasks.CreateKeepsColumnNumbered | src/hooks/useTasks.ts:31-48 | creates at the requested position keep a column numbered 0..n-1 |
| UseTasks.Merge | src/hooks/useTasks.ts:67 | `{ ...t, ...updates }`: present fields overwrite, absent ones keep the task's |
| UseTasks.MergeIdempotent | src/hooks/useTasks.ts:67 | merging twice is merging once; the empty patch changes nothing |
| UseTasks.Patched | src/hooks/useTasks.ts:67 | tasks with the id are merged, all others unchanged, length kept |
| UseTasks.Without | src/hooks/useTasks.ts:83 | no task with the id remains and every other task keeps its multiplicity |
| UseTasks.WithoutKeepsOrder | src/hooks/useTasks.ts:83 | deleting distributes over concatenation and leaves a list without the id unchanged |
| UseTasks.Moved | src/hooks/useTasks.ts:101-109 | only the tasks with the id get the new status and position; the others and the length are kept |
| UseTasks.MoveIsUpdate | src/hooks/useTasks.ts:101-114 | the local effect of a move is the update with the patch it sends |
| UseTasks.MoveRequest | src/hooks/useTasks.ts:114 | the patch a move sends sets exactly the status and the position |
| UseTasks.MoveKeepsOthers | src/hooks/useTasks.ts:101-109 | a move renumbers nobody else |
| UseTasks.Renumber | src/hooks/useTasks.ts:147-150 | the k-th task of the column gets position k, nothing else changes |
| UseTasks.PositionWrites | src/hooks/useTasks.ts:139-142 | one write per column task, in order, carrying its id and its index |
| UseTasks.UnplacedPermutes | src/hooks/useTasks.ts:145-152 | permutations stay permutations once positions are ignored |
| UseTasks.ReorderedColumnMembers | src/hooks/useTasks.ts:131-136 | every task of the spliced column has the column's status |
| UseTasks.ReorderedColumn | src/hooks/useTasks.ts:131-136 | the sort and splice succeed exactly when the source index resolves inside the column, and give a same-length rearrangement of it |
| UseTasks.ReorderedTasksPermute | src/hooks/useTasks.ts:145-152 | other tasks followed by a renumbered rearrangement of the column is a permutation of the list, ignoring positions |
| UseTasks.ReorderPermutes | src/hooks/useTasks.ts:131-152 | a reorder keeps the length and, ignoring positions, is a permutation |
| UseTasks.ReorderedOwnColumn | src/hooks/useTasks.ts:145-152 | the reordered column of the new list is exactly the renumbered new order |
| UseTasks.ReorderedOtherColumn | src/hooks/useTasks.ts:145-152 | every other column of the new list is the same list as before |
| UseTasks.ReorderedOwnNumbered | src/hooks/useTasks.ts:145-152 | putting a column back renumbered leaves it exactly the renumbered order, numbered 0..n-1 |
| UseTasks.ReorderRenumbersColumn | src/hooks/useTasks.ts:131-152 | after a reorder the column is the renumbered new order, numbered 0..n-1 |
| UseTasks.ReorderKeepsOtherColumns | src/hooks/useTasks.ts:131-152 | a reorder leaves every other column unchanged, in order |
| UseTasks.ReorderShownOrder | src/hooks/useTasks.ts:131-152 | sorting the reordered column, as the board does, gives the new order itself |
| UseTasks.ReorderMovesOneCard | src/hooks/useTasks.ts:131-152 | for in-range indices the shown column is the old one with the card moved from `from` to `to`, card k at position k |
| UseTasks.ReorderWritesMatchList | src/hooks/useTasks.ts:139-152 | the k-th write carries the id and position of the k-th column task of the new list, which is k |
| UseTasks.TaskEngine.constructor | src/hooks/useTasks.ts:7-8 | no tasks, loading |
| UseTasks.TaskEngine.FetchTasks | src/hooks/useTasks.ts:11-26 | the list becomes the store's rows or stays; loading is false afterwards either way |
| UseTasks.TaskEngine.CreateTask | src/hooks/useTasks.ts:29-56 | sends the next position and a null description for an empty one; appends the record on success, changes nothing and returns null on failure |
| UseTasks.TaskEngine.UpdateTask | src/hooks/useTasks.ts:59-72 | merges only after the store accepted; otherwise nothing changes |
| UseTasks.TaskEngine.DeleteTask | src/hooks/useTasks.ts:75-89 | removes the id only after the store deleted it; otherwise nothing changes |
| UseTasks.TaskEngine.MoveTask | src/hooks/useTasks.ts:92-123 | unknown id: nothing and no request; otherwise the move is applied at once and a failure reloads from the store |
| UseTasks.TaskEngine.ReorderTasks | src/hooks/useTasks.ts:126-167 | no card at the source: nothing changes, no writes; otherwise the new list is the reordered one, writes go out in order, and a thrown write reloads |
| UseTasks.TaskEngine.ApplyOrder | src/hooks/useTasks.ts:139-166 | applies the renumbered column after the others at once, issues the writes in order, reloads only on a throw |
| UseTasks.IssueWrites | src/hooks/useTasks.ts:154-161 | the writes issued are the prefix of the updates up to and including the first that throws, all of them when none throws; error answers do not stop the loop |
| KanbanColumn.CardTasks | src/components/kanban/KanbanColumn.tsx:64-68 | the tasks the cards show, in card order |
| KanbanColumn.Cards | src/components/kanban/KanbanColumn.tsx:64-68 | one card per task, as a permutation in non-decreasing position order, card i with index i |
| KanbanColumn.CardsAreReorderList | src/components/kanban/KanbanColumn.tsx:22 | the cards show exactly the list the reorder sorts |
| KanbanColumn.DragSourceIsMovedTask | src/hooks/useTasks.ts:131-136 | the reorder splices the list the column shows, so card index i names the task that is moved |
| KanbanBoard.DragEndAction | src/components/kanban/KanbanBoard.tsx:23-46 | no destination or the same place: nothing; same column: reorder with both indices; other column: move with the draggable id |
| KanbanBoard.ColumnTasks | src/components/kanban/KanbanBoard.tsx:81 | a column gets exactly the tasks whose status is its id |
| KanbanBoard.ColumnsShowEveryTaskOnce | src/components/kanban/KanbanBoard.tsx:77-81 | every task appears in some column, and in no two |
| KanbanBoard.ColumnsPartitionTasks | src/components/kanban/KanbanBoard.tsx:77-81 | the three columns together are a permutation of the list |
| KanbanBoard.FindColumn | src/components/kanban/KanbanBoard.tsx:94 | `find` returns the first column with that id, and nothing exactly when none has it |
| KanbanBoard.ColumnTitles | src/components/kanban/KanbanBoard.tsx:94 | each status finds its own column's title, never the empty fallback |
| KanbanBoard.ColumnTitle | src/components/kanban/KanbanBoard.tsx:94 | the dialog heading is the title of the column whose id is the chosen status |
| KanbanBoard.Board.constructor | src/components/kanban/KanbanBoard.tsx:20-21 | dialog closed, adding into todo |
| KanbanBoard.Board.HandleAddTask | src/components/kanban/KanbanBoard.tsx:48-51 | remembers the column and opens the dialog |
| KanbanBoard.Board.SetAddingTask | src/components/kanban/KanbanBoard.tsx:92 | the dialog's open state becomes the argument |
| KanbanBoard.Board.HandleCreateTask | src/components/kanban/KanbanBoard.tsx:53-56 | creates in the column last chosen, with the next position and a null description when it is empty, then closes the dialog; `loading` and the chosen column stay |
| KanbanBoard.Board.SubmitDialog | src/components/kanban/KanbanBoard.tsx:90-95 | a non-blank submit creates the trimmed title and the trimmed description (null when blank) at the next position of the chosen column and closes; a blank one changes nothing; the chosen column and `loading` stay in both cases |
| KanbanBoard.Board.HandleDragEnd | src/components/kanban/KanbanBoard.tsx:23-46 | makes exactly the engine call `DragEndAction` names, returns the move request that call sends, and carries that call's effect on the list and on `loading` |
| TaskCard.InitialDescription | src/components/kanban/TaskCard.tsx:31 | the description, or empty when it is null |
| TaskCard.SavePatch | src/components/kanban/TaskCard.tsx:33-38 | nothing for a blank title; otherwise exactly the trimmed title and the trimmed description, null when blank |
| TaskCard.SavePatchIdempotent | src/components/kanban/TaskCard.tsx:33-38 | saving what a save produced produces the same update |
| TaskCard.SaveChangesOnlyText | src/components/kanban/TaskCard.tsx:35-38 | an accepted save changes title and description and nothing else |
| TaskCard.TaskCard.constructor | src/components/kanban/TaskCard.tsx:29-31 | editor closed, fields hold the task's title and description |
| TaskCard.TaskCard.StartEditing | src/components/kanban/TaskCard.tsx:79 | Edit opens the editor |
| TaskCard.TaskCard.HandleSave | src/components/kanban/TaskCard.tsx:33-40 | blank title: no update, editor unchanged; otherwise one update for the card's id and the editor closes |
| TaskCard.TaskCard.HandleDelete | src/components/kanban/TaskCard.tsx:84 | delete names the card's own task |
| AddTaskDialog.SubmitDisabled | src/components/kanban/AddTaskDialog.tsx:73 | the submit button is disabled exactly when the title is all whitespace |
| AddTaskDialog.Submission | src/components/kanban/AddTaskDialog.tsx:31-32 | nothing for a blank title, else the trimmed non-empty title and the trimmed description |
| AddTaskDialog.Dialog.constructor | src/components/kanban/AddTaskDialog.tsx:26-27 | both fields empty |
| AddTaskDialog.Dialog.HandleSubmit | src/components/kanban/AddTaskDialog.tsx:29-35 | a blank title hands on nothing and keeps the fields; otherwise hands on the trimmed fields and clears both |
| Text.TrimShape | src/components/kanban/TaskCard.tsx:34 | what `trim` keeps neither starts nor ends with whitespace |
| Text.TrimEmptyIff | src/components/kanban/TaskCard.tsx:34 | a string trims to empty exactly when it is all whitespace |
| Text.TrimIsInfix | src/components/kanban/AddTaskDialog.tsx:32 | trimming removes only surrounding whitespace |
| Text.TrimIdempotent | src/components/kanban/TaskCard.tsx:36 | trimming twice is trimming once |
| Text.TrimIgnoresTrailingWhitespace | src/components/chat/AIChatbot.tsx:74 | a trailing whitespace character (such as CR) does not change the trimmed payload |
| Text.TrimStartShape | src/components/kanban/AddTaskDialog.tsx:32 | the leading-whitespace removal of `trim` keeps the longest suffix not starting with whitespace, dropping only whitespace |
| Text.TrimEndShape | src/components/kanban/AddTaskDialog.tsx:32 | the trailing-whitespace removal of `trim` keeps the longest prefix not ending with whitespace, dropping only whitespace |
| Text.StartsWithIff | src/components/chat/AIChatbot.tsx:71-72 | `startsWith(p)` holds exactly when the string is `p` followed by something |
| Text.EndsWithIff | src/components/chat/AIChatbot.tsx:70 | `endsWith(p)` holds exactly when the string is something followed by `p` |
| Text.IndexOf | src/components/chat/AIChatbot.tsx:66 | `indexOf` is -1 or an index of the string |
| Text.IndexOfFinds | src/components/chat/AIChatbot.tsx:66 | -1 exactly when the character is absent, otherwise its first occurrence |
| Text.IndexOfAppend | src/components/chat/AIChatbot.tsx:63-66 | searching a concatenation finds the first part's occurrence first |
| ChatStream.StripCR | src/components/chat/AIChatbot.tsx:70 | exactly one trailing CR is removed, if any |
| ChatStream.Classify | src/components/chat/AIChatbot.tsx:71-75 | comments, blank lines and lines without `data: ` are skipped; the payload is the trimmed rest, `[DONE]` the stop sentinel |
| ChatStream.DataLineIsNotBlank | src/components/chat/AIChatbot.tsx:71-72 | a `data: ` line is neither a comment nor blank, so the two skip tests do not overlap with it |
| ChatStream.LineStep | src/components/chat/AIChatbot.tsx:71-95 | a continuing line leaves exactly the rest and only extends the reply; a stopping line leaves the reply as it was, with the buffer either the rest (`[DONE]`) or the put-back line, LF and rest |
| ChatStream.StepLine | src/components/chat/AIChatbot.tsx:66-70 | a pass finds a line exactly when the buffer has a LF, a continuing pass strictly shortens the buffer, so the inner loop terminates |
| ChatStream.Drain | src/components/chat/AIChatbot.tsx:66-96 | the inner loop only appends to the reply |
| ChatStream.Feed | src/components/chat/AIChatbot.tsx:59-97 | the outer loop only appends to the reply |
| ChatStream.LineSplit | src/components/chat/AIChatbot.tsx:66-68 | the line is the text before the first LF and exactly the text after it stays in the buffer |
| ChatStream.IgnoredLineIsConsumed | src/components/chat/AIChatbot.tsx:71-72 | a skipped line is consumed and changes nothing else |
| ChatStream.DoneKeepsRest | src/components/chat/AIChatbot.tsx:75 | `[DONE]` leaves the inner loop with the rest of the buffer untouched |
| ChatStream.UnparseableLineIsPutBack | src/components/chat/AIChatbot.tsx:92-94 | an unparseable payload restores line + LF + rest and leaves the loop; only a CR is lost |
| ChatStream.ParsedLineAppends | src/components/chat/AIChatbot.tsx:78-81 | a parsed payload appends its fragment and consumes the line |
| ChatStream.PartialLineIsPartial | src/components/chat/AIChatbot.tsx:66 | the unprocessed tail holds no LF |
| ChatStream.DrainWithoutStop | src/components/chat/AIChatbot.tsx:66-96 | with no stopping line, the inner loop appends the fragments of all complete lines in order and keeps only the partial line |
| ChatStream.LinesAppend | src/components/chat/AIChatbot.tsx:63 | the lines of a text with a chunk appended are its own, then those of its partial line continued by the chunk |
| ChatStream.PartialLineAppend | src/components/chat/AIChatbot.tsx:63 | appending a chunk continues the partial line |
| ChatStream.LinesContentAppend | src/components/chat/AIChatbot.tsx:63 | the fragments of a text with a chunk appended split the same way |
| ChatStream.NoStopAppend | src/components/chat/AIChatbot.tsx:63 | whether any line stops the loop splits the same way |
| ChatStream.FeedWithoutStop | src/components/chat/AIChatbot.tsx:59-97 | with no `[DONE]` or unparseable line, the reply is the in-order concatenation of all fragments and the buffer is the text after the last LF |
| ChatStream.ChunkingDoesNotMatter | src/components/chat/AIChatbot.tsx:59-97 | with no `[DONE]` or unparseable line, the final state does not depend on the chunking |
| ChatStream.PartialLineAddsNothing | src/components/chat/AIChatbot.tsx:59-66 | text after the final LF adds nothing to the reply |
| ChatStream.PayloadSurvivesStripCR | src/components/chat/AIChatbot.tsx:70-74 | removing a CR does not change a payload line's classification |
| ChatStream.BlockedBufferStaysBlocked | src/components/chat/AIChatbot.tsx:92-94 | a buffer led by an unparseable line stays so, and the reply does not change, whatever chunk arrives |
| ChatStream.DrainThroughDone | src/components/chat/AIChatbot.tsx:66-96 | when every complete line of the buffer continues and its last line is `[DONE]`, the line loop consumes everything, adds every fragment in order and stops with an empty buffer |
| ChatStream.FinalDoneEndsReply | src/components/chat/AIChatbot.tsx:59-97 | for a stream of continuing lines followed by one `[DONE]` line, however it is cut into chunks, the reply is every fragment before `[DONE]` in order and nothing is left in the buffer |
| ChatStream.BlockedStreamAddsNothing | src/components/chat/AIChatbot.tsx:59-97 | after an unparseable complete line nothing more is ever added to the reply |
| ChatStream.FeedTwo | src/components/chat/AIChatbot.tsx:59-66 | two chunks: feed the first, then drain with the second appended |
| ChatStream.SentinelLine | src/components/chat/AIChatbot.tsx:74-75 | `data: [DONE]` is the stop sentinel |
| ChatStream.PayloadLine | src/components/chat/AIChatbot.tsx:72-74 | the payload is what follows the six-character prefix |
| ChatStream.SkippedLines | src/components/chat/AIChatbot.tsx:71-72 | `:` and `event: ping` are skipped |
| ChatStream.DoneDefersTheRest | src/components/chat/AIChatbot.tsx:59-75 | after `[DONE]` the rest of the chunk waits in the buffer and is processed with the next chunk |
| AIChatbot.ShowAssistant | src/components/chat/AIChatbot.tsx:82-90 | a trailing assistant message gets the reply so far, with the length kept; otherwise one assistant message is appended; earlier messages are never touched |
| AIChatbot.ShowAssistantAbsorbs | src/components/chat/AIChatbot.tsx:82-90 | a later update replaces what an earlier one showed |
| AIChatbot.ReplyFollowsUserMessage | src/components/chat/AIChatbot.tsx:82-90 | after a user message, a non-empty reply is exactly one new assistant message |
| AIChatbot.WithReply | src/components/chat/AIChatbot.tsx:79-90 | an empty reply runs no updater and leaves the messages; a non-empty one is the last message, an assistant message, with earlier messages kept |
| AIChatbot.ReplyText | src/components/chat/AIChatbot.tsx:57-97 | a failed request shows no reply; with no `[DONE]` or unparseable line, the reply is the in-order fragments of every complete line |
| AIChatbot.RefusalMessage | src/components/chat/AIChatbot.tsx:47-50 | the server's non-empty `error`, else "Failed to get response" |
| AIChatbot.StreamFailure | src/components/chat/AIChatbot.tsx:38-52 | a failed request or missing body always raises, with a non-empty message for a refusal or a missing body |
| AIChatbot.SendDisabled | src/components/chat/AIChatbot.tsx:220 | the send button is disabled exactly when the input is blank or a reply is streaming |
| AIChatbot.ChatPanel.constructor | src/components/chat/AIChatbot.tsx:18-21 | no messages, empty input, not loading |
| AIChatbot.ChatPanel.StreamChat | src/components/chat/AIChatbot.tsx:37-98 | the messages are the conversation with the reply `Feed` assembles; the failure is the one the response raises |
| AIChatbot.ChatPanel.ReadLines | src/components/chat/AIChatbot.tsx:66-96 | the inner loop computes `Drain` and shows the reply so far |
| AIChatbot.ChatPanel.HandleLine | src/components/chat/AIChatbot.tsx:70-95 | one pass computes `LineStep`: skip, stop, put back, or append and show |
| AIChatbot.ChatPanel.HandleSubmit | src/components/chat/AIChatbot.tsx:100-118 | blank input or loading: nothing changes; otherwise one trimmed user message is sent, the input cleared, the reply shown, and loading ends in every case |

## Left out

- The remote store client, the realtime subscription and its reload-on-change effect (`src/hooks/useTasks.ts:13-16, 170-187`): each store answer is an input of the method that awaits it.
- Races between realtime reloads, optimistic updates and the awaited writes of a reorder: the model is sequential.
- `fetch`, request headers, the JSON error body, `TextDecoder`'s streaming UTF-8 decoding: chunks are already-decoded strings, and the refusal's `error` field is an input.
- `JSON.parse` and the optional chaining into the record: the abstract function `parse`.
- Rendering, JSX, the scroll and focus effects, Markdown, toasts, logging, the drag library's own mechanics, the column's count badge (the length of the list `KanbanColumn.Cards` is given), and the chat panel's open/close button.
- `src/components/kanban/Header.tsx` and `src/pages/Index.tsx`: wiring only.
- `createdAt`/`updatedAt`: opaque strings the store assigns.
- JavaScript numbers are `int`: there are no fractions and no NaN, and `Math.max` over a spread (which fails for very long arrays) is an ordinary maximum.
- Strings are sequences of characters, not of UTF-16 code units.
- The spread copy in `KanbanColumn.tsx:22`: Dafny sequences are values, so the given list is unchanged by construction.
- TaskOrder.SortByPosition: stability of `Array.prototype.sort` is modelled by a stable insertion sort, but no separate stability lemma beyond `SortSortedIsIdentity` is stated.
- UseTasks.TaskEngine.CreateTask: the default argument `status = 'todo'` (`src/hooks/useTasks.ts:29`) is not modelled; the status is always passed, as both callers do (the board with the column last chosen, `src/components/kanban/Header.tsx:15` with `'todo'`).
- UseTasks.TaskEngine.ReorderTasks: the splice of `columnTasks` in place is modelled on values (`Seqs.Reposition`), and the writes loop is the helper method `IssueWrites`, called from `ApplyOrder`.
- AIChatbot.StreamFailure: a thrown value that is not an `Error` (toasted as "Failed to get response") is not modelled; a network failure carries its message as given.
