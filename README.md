# Single-board task tracker: store, client mirror and drag-drop re-sequencing

This project models the core of a small task tracker with one board. The server
keeps two SQLite tables. `columns(id, title)` holds the columns. `tasks(id,
title, status, position, description)` holds the tasks; a task's `status` is the
id of its column and `position` is its rank in that column. Each mutating HTTP
route runs one INSERT, UPDATE or DELETE; POST /tasks first reads
`MAX(position)` of the column, and GET /board runs two SELECTs. The browser keeps a mirror `boardData = {columns,
tasks}` of the board. It renders each column from the mirror tasks that carry
that column's id. It patches the mirror after creates and deletes. When a task
is dropped, it sends one move request per item of the list it landed in.

The model has four modules:

- `Seqs` (seqs.dfy): the order-keeping filter behind every SQL `DELETE ... WHERE`
  and every client `Array.filter`, and the sort behind `ORDER BY`.
- `Store` (store.dfy): the rows as datatypes. The SQL statements are pure
  functions on row sequences (`MoveRows`, `RenameRows`, `DescribeRows`,
  `NextPosition`). The tables are the `Board` class, with one method per route
  and the start-up seed. `Board.Valid()` says the ids in each table are unique
  (INTEGER PRIMARY KEY).
- `Client` (client.dfy): the render filter, what a sequence of move requests does
  to the store, the drop lemmas, and `BoardController`. This class holds the
  mirror and a reference to the `Board` it calls. Each of its handlers runs to
  completion. `InSync()` says the mirror holds exactly the store's rows.
- `Rename` (rename.dfy): JavaScript's `trim`, and the Display/Editing state machine
  of the inline rename as a transition function `Step`. `TitleEditor` is the
  class whose methods are the DOM listeners.

Main results:

- A drop's requests, applied to the store, give the task at visual index i of
  the target list the target column and position i. Tasks outside that list
  keep their status and position, so the source column can be left with gaps.
  When the list showed the whole target column, that column's positions end up
  exactly 0 .. n-1 (`DropMakesTargetContiguous`).
- `createTask` places a new task one past the largest position in its column, or
  at 0 in an empty column, when each request runs to completion before the next
  (see "## Left out").
- Confirmed delete, add-task and add-column keep the mirror in sync with the store.
  The drop handler and the rename handlers leave the mirror as it was. The
  mirror therefore keeps the old title of a renamed task, and the old status
  and position of moved tasks. The next re-render (for example after adding a
  column) shows those stale values. A drop into a list re-rendered from such a
  stale mirror may then miss a task the store already has in the target
  column, and that task can end at the same position as one of the listed
  tasks (`StaleListDuplicatesPosition`).
- A title sent by the rename flow is never blank and always trimmed. The title
  on screen is always the last title sent, or the original one.

Behaviour of the code that is easy to misread:

- Only the target list of a drop is re-sequenced. The list the task left is not,
  so its remaining tasks keep their old positions, gaps included.
- The server never checks titles. The client rejects only the empty string when
  creating tasks and columns, so a title of blanks is accepted there. Only the
  rename flow trims before checking.
- The id a new row receives is only known to be fresh and positive.

## Model

| member | source | states |
|---|---|---|
| `Seqs.Filter` | public/main.js:69-70 | the result holds exactly the elements that pass the predicate, and is never longer than the input |
| `Seqs.FilterConcat` | public/main.js:69-70 | filtering distributes over concatenation, so the kept elements keep their relative order |
| `Seqs.FilterKeepsAll` | server.js:128 | a delete that matches no row leaves the sequence as it was (used by `Board.DeleteTasksByStatus`) |
| `Seqs.FilterMultiset` | server.js:128 | every occurrence of a kept row survives, and no occurrence of a deleted row does |
| `Seqs.FilterPermutation` | public/main.js:69-70 | filtering two permutations of one another gives permutations of one another (mirror and store stay in sync) |
| `Seqs.FilterDistinct` | server.js:33 | deleting rows never makes two rows share an id |
| `Seqs.SortBy` | server.js:53-54 | the result is a permutation of the table, in non-decreasing key order |
| `Seqs.SortByStrict` | server.js:53 | when ids are unique, ordering by id gives a strictly ascending list |
| `Seqs.KeyBound` | server.js:33 | a positive id above every id in the table exists, so the table always has a fresh id |
| `Store.MaxPosition` | server.js:82-85 | `MAX(position)` over one column: None exactly when the column has no task; otherwise an upper bound that some task of the column attains |
| `Store.NextPosition` | server.js:82-86 | 0 for a column with no tasks; otherwise above every position in the column and equal to one more than some position in it |
| `Store.MoveRows` | server.js:101 | only the status and position of the row with that id change; ids, titles, descriptions and all other rows stay; an unknown id changes nothing |
| `Store.RenameRows` | server.js:116 | only the title of the row with that id changes; an unknown id changes nothing |
| `Store.DescribeRows` | server.js:149-152 | only the description of the row with that id changes; an unknown id changes nothing |
| `Store.OrphanedByColumnDelete` | server.js:137-141 | after DELETE /columns/:id on the store, every task of the removed column is still in the tasks table, and no remaining column has its status as id |
| `Store.Board.constructor` | server.js:32-42 | the freshly created tables are empty and valid |
| `Store.Board.Seed` | server.js:44-47 | an empty columns table becomes exactly one column titled "Todo"; a non-empty one is unchanged; tasks are unchanged |
| `Store.SeedTwice` | server.js:44-47 | after two seeds the columns are what one seed gives: exactly one "Todo" column when the table was empty, the old table otherwise |
| `Store.Board.CreateColumn` | server.js:66-72 | exactly one column is appended, with the given title (no validation) and an id no existing column has; the reply is that row and tasks are unchanged |
| `Store.Board.CreateTask` | server.js:79-91 | exactly one task is appended, with a fresh id, the given title and status, position `NextPosition` and no description; the reply is that row |
| `Store.Board.MoveTask` | server.js:98-106 | the tasks table becomes `MoveRows` of the old one; columns are unchanged |
| `Store.Board.RenameTask` | server.js:113-117 | the tasks table becomes `RenameRows` of the old one; columns are unchanged |
| `Store.Board.SetDescription` | server.js:148-157 | the tasks table becomes `DescribeRows` of the old one; columns are unchanged |
| `Store.Board.DeleteTasksByStatus` | server.js:125-129 | no task of that status remains, every other task is kept in order, a status no task has leaves the table as it was, columns are unchanged |
| `Store.Board.DeleteColumn` | server.js:137-141 | only that column row goes, others keep their order, and tasks are untouched |
| `Store.Board.Snapshot` | server.js:51-59 | columns come as a permutation of the table with strictly ascending ids; tasks come as a permutation of the table with non-decreasing positions |
| `Client.Render` | public/main.js:12-30 | one view per mirror column in mirror order; column c lists exactly the mirror tasks whose status is c's id, as the order-keeping filter of the mirror |
| `Client.RenderCountsAndOrder` | public/main.js:29-30 | a column lists each of its mirror tasks as many times as the mirror holds it and nothing else, and in mirror order |
| `Client.RenderShowsExactly` | public/main.js:12-30 | a task is shown somewhere exactly when some column has its status as id; an orphaned task is shown nowhere |
| `Client.AppendMatchesRerender` | public/main.js:104-105 | appending the created task to its column's list gives what a full re-render of the grown mirror shows, and other columns are unaffected |
| `Client.ApplyMoves` | public/main.js:40-48 | the awaited move requests applied one after another to the tasks table, each as the UPDATE of server.js:101; its properties are stated by `ApplyMovesEffect` |
| `Client.ApplyMovesEffect` | public/main.js:40-48 | after a sequence of moves for different ids, each row keeps id, title and description, a row named by a move has that move's status and position, and other rows are untouched |
| `Client.DropResequences` | public/main.js:39-47 | after a drop's writes, the task at visual index i has the target status and position i, and every task outside the target list is unchanged |
| `Client.StaleListDuplicatesPosition` | public/main.js:39-47 | when the target list misses a stored task of the target column whose position p is below the list's length, that task and the task listed at index p both end in the target column at position p |
| `Client.DropMakesTargetContiguous` | public/main.js:39-47 | when the target list showed the whole target column, that column holds exactly the listed tasks and its positions are exactly 0 .. n-1 |
| `Client.BoardController.constructor` | public/main.js:1 | the mirror starts with no columns and no tasks |
| `Client.BoardController.LoadBoard` | public/main.js:3-7 | the mirror becomes the snapshot: in sync with the store, columns by ascending id, tasks by position |
| `Client.BoardController.AddTask` | public/main.js:94-107 | an empty title makes no call and changes nothing; otherwise the created row, with the computed position, is appended to both the store and the mirror, keeping them in sync |
| `Client.BoardController.ConfirmAddColumn` | public/main.js:116-128 | an empty title makes no call and changes nothing; otherwise the created column is appended to both the store and the mirror |
| `Client.BoardController.DeleteColumn` | public/main.js:54-72 | without confirmation nothing changes; with it, the store loses the column's tasks and the column, the mirror loses the same rows with the rest in order, and sync is kept |
| `Client.BoardController.OnEnd` | public/main.js:38-49 | exactly n move writes in list order, write i carrying the target column and position i, applied to the store one after another; the mirror is untouched |
| `Rename.TrimStart` | public/main.js:154 | removes exactly a prefix of white space, and what remains does not start with white space |
| `Rename.TrimEnd` | public/main.js:154 | removes exactly a suffix of white space, and what remains does not end with white space |
| `Rename.TrimIsTrimmed` | public/main.js:154 | a trimmed title neither starts nor ends with white space |
| `Rename.TrimSlice` | public/main.js:154 | the trimmed title is a slice of the input, and everything cut from either end is white space |
| `Rename.TrimEmptyIff` | public/main.js:154-155 | the title trims to empty, so no call is made, exactly when it is all white space |
| `Rename.TrimIdempotent` | public/main.js:154 | trimming twice is trimming once |
| `Rename.Trim` | public/main.js:154 | `String.prototype.trim`; its properties are stated by `TrimSlice`, `TrimIsTrimmed`, `TrimEmptyIff` and `TrimIdempotent` |
| `Rename.Step` | public/main.js:146-150 | one event of the span's click, the input's blur and keydown listeners; its properties are stated by `StepSends` |
| `Rename.Finish` | public/main.js:153-166 | `finishRenameTask`: a blank trimmed draft keeps the input; otherwise the trimmed draft is sent and shown; stated by `StepSends` |
| `Rename.Run` | public/main.js:137-166 | a sequence of events driving those listeners; its properties are stated by `RunSendsTrimmedTitles`, `RunShowsLastSent` and `EscapeRestores` |
| `Rename.StepSends` | public/main.js:146-159 | one event sends at most one title, only on Enter or blur while editing, and that title is the non-blank trimmed draft; the shown title becomes the one sent |
| `Rename.RunSendsTrimmedTitles` | public/main.js:153-160 | over any sequence of events, every title sent is non-blank and trimmed |
| `Rename.RunShowsLastSent` | public/main.js:149-165 | after any sequence of events, the title shown (or the one Escape restores) is the last one sent, or the original one if none was sent |
| `Rename.EscapeRestores` | public/main.js:149 | after any typing, Escape shows the original title again and nothing is sent |
| `Rename.TitleEditor.constructor` | public/main.js:80-83 | a task title starts in Display mode with its title |
| `Rename.TitleEditor.Click` | public/main.js:137-146 | a click on the span enters Editing, with the span's text as both the original and the draft |
| `Rename.TitleEditor.Type` | public/main.js:139-140 | typing changes only the draft of the input |
| `Rename.TitleEditor.Commit` | public/main.js:146-166 | a draft that trims to nothing changes nothing and the input stays; otherwise the trimmed title is sent and shown; the mirror is not in its frame, so its title is never updated |
| `Rename.TitleEditor.Escape` | public/main.js:149 | the original span comes back; no store is in its frame, so nothing is sent |

## Left out

- Express routing, body parsing, static file serving and `app.listen` (server.js:1-8, 160) are HTTP plumbing.
- The sqlite3 driver and its promise wrappers (server.js:11-28) are not modelled. The tables are sequences of rows.
- Persistence errors, the HTTP 500 replies and `console.log` are not modelled: every store call succeeds. The failure path of the two-call column delete, where the client strips the mirror anyway, is therefore not covered.
- The routes' `{success: true}` replies carry no information. They are not modelled; in particular a move, rename or description update of an unknown id answers success.
- SQLite's rowid allocation is not modelled. A new row gets an arbitrary positive id that no current row of its table has. Because of this, concrete ids (such as id 1 for the first row of an empty table) cannot be shown. The model also allows the id of a deleted row to be used again, as SQLite does without AUTOINCREMENT.
- NULL values from missing request fields (an absent `title`, `status` or `position`) are not modelled. Every field is present.
- Ids are integers throughout. The string-to-integer conversion of `dataset` and `req.params` values (public/main.js:41-42, server.js:127, 139) is not modelled.
- The order of tasks with equal positions in GET /board is left open by SQL. `Board.Snapshot` promises only a permutation sorted by position; its body computes one such order.
- DOM construction, CSS classes, `innerHTML` templates, `fetch` and JSON (public/main.js:10-27, 74-92), `showAddColumnForm` and `cancelAddColumn` (public/main.js:110-134) are UI and network.
- Sortable's drag mechanics are not modelled. The final target list of ids is an input of `OnEnd`.
- Server routes are modelled as atomic. POST /tasks awaits `SELECT MAX(position)` (server.js:82-85) before its INSERT (server.js:87-90), and `addTask` clears its input only after the reply (public/main.js:94-106). Two interleaved POST /tasks for one column can therefore read the same maximum and give two tasks the same position. Moves from overlapping drags can interleave too. Each handler and each route runs to completion in the model.
- The blur that a browser may fire when `replaceWith` removes the focused input is not modelled, on either path. On the commit path (public/main.js:165) it runs `finishRenameTask` again and sends the same title a second time. On the Escape path (public/main.js:149) it runs `finishRenameTask` on the draft the user typed: the cancelled draft is sent to the store while the original span stays on screen. `EscapeRestores` and `RunShowsLastSent` assume that no blur follows `replaceWith`; in a browser that fires one on removal, Escape after typing a non-blank draft renames the task anyway.
- The `confirm` dialog is a boolean input of `DeleteColumn`, and the text of the input fields is a string input of the handlers.
- `IsSpace` lists ECMAScript's WhiteSpace and LineTerminator code points (including the Unicode space separators). It does not follow later changes to Unicode's space-separator category.
