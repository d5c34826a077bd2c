# To-do list manager: a Dafny model of `TodoListApp`

`TodoListApp` is a single-window to-do list. The user types a task title
into an entry field and adds it, selects a line of the list and deletes it,
or clears the whole list after a yes/no confirmation. Titles live in two
places at once: the list `self.tasks` in memory, which drives a listbox, and
a one-column `tasks` table in an embedded SQL database, which is read back
when the window opens.

The model keeps exactly that state in the class `TodoApp.TodoListApp`:

- `tasks: seq<string>` is the list in memory;
- `store: multiset<string>` is the table, which has no key and no row order;
- `display: seq<string>` is the lines of the listbox.

Each handler is a method. The entry text, the selected listbox line
(`Option<nat>`) and the answer to the confirmation (`bool`) are parameters.
The informational dialogs come back as `Dialog` values that carry the
source's own title and message. The SQL statements are functions on the
multiset (module `Table`). Python's `str.strip()` and `list.remove` are
functions with their own contracts (modules `Text` and `TaskList`).

The property of most interest is the invariant `multiset(tasks) == store`
(`TaskList.InSync`, which the class checks on its own fields as
`InSync()`). Adding a task and clearing the list preserve it. Deleting does
not always preserve it. `list.remove` takes out only the first copy of the
selected title, but `delete from tasks where title = ?` removes every row
with that title. `TaskList.DeleteInSyncIff` proves that the invariant
survives a delete exactly when the title was listed once, and that the
table otherwise loses one row more than the list per extra copy.
`Sessions.DuplicateSession` gives a concrete session. The user adds
"Buy milk" twice and deletes one line. The other line stays on screen, but
the table is empty, so the list comes back empty the next time the window
opens. The model keeps this behaviour as the code has it.

Modules, one per concern of the source file `PRODIGY_AD_02.PY`:

| file | module | what it holds |
|---|---|---|
| `wrappers.dfy` | `Wrappers` | `Option` |
| `text.dfy` | `Text` | `str.strip()` and the whitespace it removes |
| `table.dfy` | `Table` | the effect of each SQL statement on the table's rows |
| `task_list.dfy` | `TaskList` | `list.remove` and how the list and table stay in sync |
| `todo_app.dfy` | `TodoApp` | the class `TodoListApp` and its handlers |
| `sessions.dfy` | `Sessions` | two whole sessions driven through the handlers |

## Model

| member | source | states |
|---|---|---|
| `Text.Strip` | PRODIGY_AD_02.PY:122 | The stripped entry has no whitespace at either end. It is empty exactly when the entry is all whitespace, which is the `if not task_string` test. |
| `Text.StripRemovesPadding` | PRODIGY_AD_02.PY:122 | The entry is the stripped text with a run of whitespace on each side. Nothing else is removed. |
| `Text.StripOfPadded` | PRODIGY_AD_02.PY:122 | Any text that does not start or end with whitespace, padded with whitespace on both sides, strips back to itself. Together with `StripRemovesPadding`, this determines `strip()` completely. |
| `Text.StripKeeps` | PRODIGY_AD_02.PY:122 | A title that neither starts nor ends with whitespace is left unchanged by `strip()`. |
| `Text.StripIdempotent` | PRODIGY_AD_02.PY:122 | Stripping an already stripped title changes nothing. |
| `Table.CreateIfNotExists` | PRODIGY_AD_02.PY:16 | An existing table keeps its rows. A missing table starts with none. |
| `Table.Insert` | PRODIGY_AD_02.PY:127 | `insert` adds exactly one row with the title. The count of every other title stays the same. |
| `Table.DeleteWhereTitle` | PRODIGY_AD_02.PY:142 | `delete … where title = ?` leaves no row with the title. Other counts stay the same, and the table shrinks by the number of copies removed. |
| `Table.DeleteAll` | PRODIGY_AD_02.PY:150 | `delete from tasks` leaves no row of any title. |
| `TaskList.IndexOf` | PRODIGY_AD_02.PY:141 | `list.remove` acts on a position that holds the value, and no earlier position holds it. |
| `TaskList.RemoveFirst` | PRODIGY_AD_02.PY:141 | `list.remove` makes the list exactly one element shorter. |
| `TaskList.RemoveFirstSplits` | PRODIGY_AD_02.PY:141 | `list.remove` keeps everything before the first occurrence and everything after it, in order. |
| `TaskList.RemoveFirstMultiset` | PRODIGY_AD_02.PY:141 | `list.remove` takes exactly one copy of the value out of the list's contents. |
| `TaskList.DeleteInSyncIff` | PRODIGY_AD_02.PY:140-142 | Starting from a table in sync with the list: after a delete, the list and table agree if and only if the title was listed exactly once. Otherwise the table has `count - 1` fewer rows than the list. |
| `TodoApp.TodoListApp.constructor` | PRODIGY_AD_02.PY:13-22 | The table is created if missing, with any rows already there kept. The list is loaded from it and shown, so memory and table agree and the listbox shows the list. |
| `TodoApp.TodoListApp.RetrieveDatabase` | PRODIGY_AD_02.PY:156-159 | The list is replaced, not extended, by the table's rows: afterwards it holds each title as often as the table does. The order is whatever the engine yields. |
| `TodoApp.TodoListApp.ClearList` | PRODIGY_AD_02.PY:153-154 | The listbox is emptied. |
| `TodoApp.TodoListApp.ListUpdate` | PRODIGY_AD_02.PY:131-134 | The listbox shows the list in memory, line for line and in the same order. |
| `TodoApp.TodoListApp.AddTask` | PRODIGY_AD_02.PY:121-128 | An entry that strips to nothing shows "Field is Empty." and changes nothing. Otherwise the stripped title is appended to the list, with no whitespace at either end. The table gains exactly one copy of it, the listbox shows the list, and memory and table stay in agreement. |
| `TodoApp.TodoListApp.DeleteTask` | PRODIGY_AD_02.PY:136-145 | With no selection, "No Task Selected. Cannot Delete." is shown and nothing changes. A selected title not in the list changes nothing. Otherwise the list loses the first copy of the title, the table loses every copy, and the listbox shows the list. If memory and table agreed before, they agree after exactly when the title was listed once. |
| `TodoApp.TodoListApp.DeleteAllTasks` | PRODIGY_AD_02.PY:147-151 | If confirmed, the list, the table and the listbox all become empty. If declined, nothing changes. Agreement between memory and table is preserved. |
| `Sessions.FirstSession` | PRODIGY_AD_02.PY:121-151 | On a fresh database, a blank entry is refused. Adding "Buy milk" and "Call Alice" shows no dialog, shows both in order and puts both in the table. Deleting the first line leaves "Call Alice" with no dialog. A confirmed clear leaves an empty listbox and an empty table, in sync with the list. |
| `Sessions.DuplicateSession` | PRODIGY_AD_02.PY:136-145 | The user adds the same title twice, the second time padded with spaces, then deletes one line. One line stays on screen, memory and table disagree, and reopening on that table shows an empty list. |

## Left out

- Widget construction, layout and styling (`create_widgets` apart from its final `list_update` call), window setup and the `mainloop` entry point: these are GUI plumbing with no state of the list.
- The `messagebox` dialogs are not drawn. `showinfo` becomes a returned `Dialog` value, and the `askyesno` answer becomes the `confirmed` parameter.
- Clearing the entry field after a successful add (line 129) is not modelled. The entry text is a parameter of `AddTask`, not state of the model.
- The sqlite3 connection, cursor and implicit transaction are not modelled. The only commit is in `close`, which only the Exit button reaches. Closing the window any other way, or a crash, rolls back every insert and delete since the window opened. `store` is the table as the Exit button leaves it, and this loss is not captured.
- Errors from the database engine are not modelled. Only a failure while the window opens (lines 13-22, before `mainloop` at line 168) ends the program. `add_task`, `delete_task` and `delete_all_tasks` run as tkinter callbacks, and tkinter reports an exception raised in a callback and keeps the window running. Each handler changes `self.tasks` (lines 126, 141, 149) before its SQL statement runs (lines 127, 142, 150). A failing statement, such as "database is locked" while another window on the same file holds the write transaction, therefore leaves the list changed, the table unchanged, the listbox stale and no dialog shown. A failed commit in `close` (line 162) leaves the window open. The model assumes every statement succeeds.
- TodoApp.TodoListApp.AddTask: its guarantee that memory and table stay in sync assumes the `insert` at line 127 succeeds. When it fails, the list has gained the title and the table has not.
- TodoApp.TodoListApp.DeleteTask: its statement of when memory and table stay in sync assumes the `delete … where title = ?` at line 142 succeeds. When it fails, the list has lost one copy of the title and the table has lost none.
- TodoApp.TodoListApp.DeleteAllTasks: its guarantee that memory and table stay in sync assumes the `delete from tasks` at line 150 succeeds. When it fails, the list is empty and the table keeps its rows.
- The row order of `select title from tasks` is not modelled. `RetrieveDatabase` takes the remaining rows in an arbitrary order, so only the multiset of titles is determined.
- `Text.IsWhitespace` lists the characters for which Python's `str.isspace()` holds, taken from Python's definition. A Python build with a different Unicode database could differ.
- TodoApp.TodoListApp.DeleteTask: requires the selected index to name a line of the listbox. tkinter's `curselection` only reports shown lines, so an out-of-range index is not modelled.
