/**
  `TodoListApp`: the to-do list window's state and its four handlers.
  The window keeps three things in step: the list of titles in memory
  (`tasks`), the rows of the database table (`store`) and the lines shown
  in the listbox (`display`). The text typed into the entry field, the line
  selected in the listbox and the answer to the yes/no dialog come in as
  parameters; an informational dialog comes out as a `Dialog` value.
 */
module TodoApp {
  import opened Wrappers
  import Text
  import Table
  import opened TaskList

  /** What a handler shows the user besides the list itself. */
  datatype Dialog = NoDialog | ShowInfo(title: string, message: string)

  /** `add_task` on an entry that is empty once stripped. */
  const FieldIsEmpty := ShowInfo("Error", "Field is Empty.")

  /** `delete_task` when no line of the listbox is selected. */
  const NoTaskSelected := ShowInfo("Error", "No Task Selected. Cannot Delete.")

  class TodoListApp {
    var tasks: seq<string>
    var store: Table.Rows
    var display: seq<string>

    /** Memory and table hold the same titles, as many times each. */
    predicate InSync()
      reads this
    {
      TaskList.InSync(tasks, store)
    }

    /** The listbox shows the list in memory, line for line. */
    predicate Shown()
      reads this
    {
      display == tasks
    }

    /** Opening the window: make sure the table exists (keeping the rows an
        earlier session left), load the list from it and show it. */
    constructor (existing: Option<Table.Rows>)
      ensures store == Table.CreateIfNotExists(existing)
      ensures InSync() && Shown()
    {
      store := Table.CreateIfNotExists(existing);
      tasks := [];
      display := [];
      new;
      RetrieveDatabase();
      ListUpdate();
    }

    /** `retrieve_database`: replaces the list by the table's rows. The
        query has no `order by`, so each step takes whichever remaining row
        the engine yields; only the multiset of titles is determined. */
    method RetrieveDatabase()
      modifies this`tasks
      ensures InSync()
    {
      tasks := [];
      var pending := store;
      while pending != multiset{}
        invariant multiset(tasks) + pending == store
        decreases |pending|
      {
        var row :| row in pending;
        tasks := tasks + [row];
        pending := pending - multiset{row};
      }
    }

    /** `clear_list`: empties the listbox. */
    method ClearList()
      modifies this`display
      ensures display == []
    {
      display := [];
    }

    /** `list_update`: empties the listbox, then inserts every title of the
        list at its end, so that it shows the list in the same order. */
    method ListUpdate()
      modifies this`display
      ensures Shown()
    {
      ClearList();
      for i := 0 to |tasks|
        invariant display == tasks[..i]
      {
        display := display + [tasks[i]];
      }
    }

    /** `add_task`: an entry that strips to nothing is refused with a dialog
        and changes nothing; otherwise the stripped title is appended to the
        list, inserted into the table and shown. */
    method AddTask(entry: string) returns (dialog: Dialog)
      modifies this
      ensures Text.Strip(entry) == [] ==>
        dialog == FieldIsEmpty &&
        tasks == old(tasks) && store == old(store) && display == old(display)
      ensures Text.Strip(entry) != [] ==>
        dialog == NoDialog &&
        tasks == old(tasks) + [Text.Strip(entry)] &&
        Text.Trimmed(tasks[|tasks| - 1]) &&
        store == Table.Insert(old(store), Text.Strip(entry)) &&
        Shown()
      ensures old(InSync()) ==> InSync()
    {
      var title := Text.Strip(entry);
      if title == [] {
        dialog := FieldIsEmpty;
      } else {
        tasks := tasks + [title];
        store := Table.Insert(store, title);
        ListUpdate();
        dialog := NoDialog;
      }
    }

    /** `delete_task`: with nothing selected, a dialog and no change.
        Otherwise the selected line's title loses its first occurrence in
        the list and every one of its rows in the table. The two stay in
        sync exactly when that title was listed once. */
    method DeleteTask(selection: Option<nat>) returns (dialog: Dialog)
      requires selection.Some? ==> selection.value < |display|
      modifies this
      ensures selection.None? ==>
        dialog == NoTaskSelected &&
        tasks == old(tasks) && store == old(store) && display == old(display)
      ensures selection.Some? ==> dialog == NoDialog
      ensures selection.Some? && old(display)[selection.value] !in old(tasks) ==>
        tasks == old(tasks) && store == old(store) && display == old(display)
      ensures selection.Some? && old(display)[selection.value] in old(tasks) ==>
        var v := old(display)[selection.value];
        tasks == RemoveFirst(old(tasks), v) &&
        store == Table.DeleteWhereTitle(old(store), v) &&
        Shown() &&
        (old(InSync()) ==> (InSync() <==> old(multiset(tasks))[v] == 1))
    {
      match selection
      case None =>
        dialog := NoTaskSelected;
      case Some(index) =>
        var value := display[index];
        if value in tasks {
          DeleteInSyncIff(tasks, value);
          tasks := RemoveFirst(tasks, value);
          store := Table.DeleteWhereTitle(store, value);
          ListUpdate();
        }
        dialog := NoDialog;
    }

    /** `delete_all_tasks`: if the user confirms, the list, the table and
        the listbox are all emptied; if not, nothing changes. */
    method DeleteAllTasks(confirmed: bool)
      modifies this
      ensures confirmed ==>
        tasks == [] && store == Table.DeleteAll(old(store)) && display == []
      ensures !confirmed ==>
        tasks == old(tasks) && store == old(store) && display == old(display)
      ensures old(InSync()) ==> InSync()
    {
      if confirmed {
        tasks := [];
        store := Table.DeleteAll(store);
        ListUpdate();
      }
    }
  }
}
