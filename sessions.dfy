/**
  Whole sessions with the to-do list window, driven through the handlers
  exactly as a user would drive the buttons, each stating what the user
  ends up seeing.
 */
module Sessions {
  import opened Wrappers
  import Text
  import TaskList
  import opened TodoApp

  /** What strip and remove make of the inputs of the first session. */
  lemma FirstSessionInputs()
    ensures Text.Strip("   ") == []
    ensures Text.Strip("Buy milk") == "Buy milk"
    ensures Text.Strip("Call Alice") == "Call Alice"
    ensures TaskList.RemoveFirst(["Buy milk", "Call Alice"], "Buy milk") == ["Call Alice"]
  {
    Text.StripKeeps("Buy milk");
    Text.StripKeeps("Call Alice");
  }

  /**
    A first session on a fresh database: a blank entry is refused, two
    tasks are added, the first is deleted, and then everything is cleared
    after confirmation.
   */
  method FirstSession() returns (blank: Dialog, added: seq<Dialog>, afterAdds: seq<string>,
                                 rowsAfterAdds: multiset<string>, deleted: Dialog,
                                 afterDelete: seq<string>, afterClear: seq<string>,
                                 rowsAfterClear: multiset<string>, inSyncAfterClear: bool)
    ensures blank == FieldIsEmpty
    ensures added == [NoDialog, NoDialog]
    ensures afterAdds == ["Buy milk", "Call Alice"]
    ensures rowsAfterAdds == multiset{"Buy milk", "Call Alice"}
    ensures deleted == NoDialog
    ensures afterDelete == ["Call Alice"]
    ensures afterClear == []
    ensures rowsAfterClear == multiset{}
    ensures inSyncAfterClear
  {
    FirstSessionInputs();
    var app := new TodoListApp(None);
    assert app.tasks == [] && app.store == multiset{};
    blank := app.AddTask("   ");
    assert app.tasks == [] && app.store == multiset{};
    var first := app.AddTask("Buy milk");
    assert app.tasks == ["Buy milk"];
    var second := app.AddTask("Call Alice");
    assert app.tasks == ["Buy milk", "Call Alice"] == app.display;
    added := [first, second];
    afterAdds := app.display;
    rowsAfterAdds := app.store;
    deleted := app.DeleteTask(Some(0));
    afterDelete := app.display;
    app.DeleteAllTasks(true);
    afterClear := app.display;
    rowsAfterClear := app.store;
    inSyncAfterClear := app.InSync();
  }

  /** What strip and remove make of the inputs of the duplicate session. */
  lemma DuplicateSessionInputs()
    ensures Text.Strip("Buy milk") == "Buy milk"
    ensures Text.Strip("  " + "Buy milk" + " ") == "Buy milk"
    ensures TaskList.RemoveFirst(["Buy milk", "Buy milk"], "Buy milk") == ["Buy milk"]
  {
    Text.StripKeeps("Buy milk");
    Text.StripOfPadded("  ", "Buy milk", " ");
  }

  /**
    The same title entered twice (the second time with spaces around it,
    which are stripped). Deleting one of the two lines leaves the other on
    screen but takes both rows out of the table, so the list and the table
    disagree, and a restart on that table brings back an empty list.
   */
  method DuplicateSession() returns (shown: seq<string>, inSync: bool, afterRestart: seq<string>)
    ensures shown == ["Buy milk"]
    ensures !inSync
    ensures afterRestart == []
  {
    DuplicateSessionInputs();
    var app := new TodoListApp(None);
    assert app.tasks == [] && app.store == multiset{};
    var _ := app.AddTask("Buy milk");
    assert app.tasks == ["Buy milk"];
    var _ := app.AddTask("  " + "Buy milk" + " ");
    assert app.tasks == ["Buy milk", "Buy milk"] == app.display;
    assert app.store == multiset{"Buy milk", "Buy milk"};
    var _ := app.DeleteTask(Some(1));
    assert app.tasks == ["Buy milk"] && app.store["Buy milk"] == 0;
    shown := app.display;
    inSync := app.InSync();
    var restarted := new TodoListApp(Some(app.store));
    afterRestart := restarted.display;
  }
}
