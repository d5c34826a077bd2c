/**
  The in-memory list of task titles (`self.tasks`) and how its contents
  relate to the rows of the table after each statement the application
  issues alongside a list operation.
 */
module TaskList {
  import Table

  /** Where Python's `list.remove(v)` finds v: its first occurrence. */
  function IndexOf(s: seq<string>, v: string): (i: nat)
    requires v in s
    ensures i < |s| && s[i] == v
    ensures v !in s[..i]
  {
    if s[0] == v then 0
    else
      var i := 1 + IndexOf(s[1..], v);
      assert s[..i] == [s[0]] + s[1..][..i - 1];
      i
  }

  /** Python's `list.remove(v)` on a list that holds v: drops the first
      occurrence of v and keeps everything else in order. */
  function RemoveFirst(s: seq<string>, v: string): (r: seq<string>)
    requires v in s
    ensures |r| == |s| - 1
  {
    if s[0] == v then s[1..] else [s[0]] + RemoveFirst(s[1..], v)
  }

  lemma {:induction false} ConsOfSplit<T>(s: seq<T>, j: nat)
    requires j + 1 < |s|
    ensures [s[0]] + (s[1..][..j] + s[1..][j + 1..]) == s[..j + 1] + s[j + 2..]
  {
    assert s[1..][j + 1..] == s[j + 2..];
    assert s[..j + 1] == [s[0]] + s[1..][..j];
  }

  /** What `remove` keeps: everything before the first v and everything
      after it, in order. */
  lemma {:induction false} RemoveFirstSplits(s: seq<string>, v: string)
    requires v in s
    ensures RemoveFirst(s, v) == s[..IndexOf(s, v)] + s[IndexOf(s, v) + 1..]
  {
    if s[0] != v {
      var t := s[1..];
      RemoveFirstSplits(t, v);
      assert IndexOf(s, v) == IndexOf(t, v) + 1;
      ConsOfSplit(s, IndexOf(t, v));
    }
  }

  /** Removing the first occurrence takes exactly one copy of v out of the
      list's contents. */
  lemma {:induction false} RemoveFirstMultiset(s: seq<string>, v: string)
    requires v in s
    ensures multiset(RemoveFirst(s, v)) == multiset(s) - multiset{v}
  {
    var i := IndexOf(s, v);
    RemoveFirstSplits(s, v);
    assert s == s[..i] + [v] + s[i + 1..];
  }

  /** The list and the table hold the same titles, as many times each. */
  predicate InSync(tasks: seq<string>, rows: Table.Rows) {
    multiset(tasks) == rows
  }

  /**
    Deleting a selected title removes one copy from the list but every copy
    from the table. The two stay in sync exactly when the title was in the
    list once; otherwise the table ends up short by one row per extra copy.
   */
  lemma {:induction false} DeleteInSyncIff(tasks: seq<string>, v: string)
    requires v in tasks
    ensures InSync(RemoveFirst(tasks, v), Table.DeleteWhereTitle(multiset(tasks), v))
            <==> multiset(tasks)[v] == 1
    ensures |RemoveFirst(tasks, v)| - |Table.DeleteWhereTitle(multiset(tasks), v)|
            == multiset(tasks)[v] - 1
  {
    var m := multiset(tasks);
    var kept := multiset(RemoveFirst(tasks, v));
    var rows := Table.DeleteWhereTitle(m, v);
    RemoveFirstMultiset(tasks, v);
    assert kept[v] == m[v] - 1 && rows[v] == 0;
    if m[v] == 1 {
      forall w ensures kept[w] == rows[w] {
        if w != v { assert kept[w] == m[w] == rows[w]; }
      }
      assert kept == rows;
    }
    assert |m| == |tasks|;
    assert |rows| == |tasks| - m[v];
  }
}
