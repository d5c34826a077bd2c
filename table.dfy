/**
  The `tasks` table of the to-do list's database file, seen through the SQL
  statements the application issues. The table has one text column and no
  key, so its contents are a multiset of titles: duplicates are kept and
  rows have no order.
 */
module Table {
  import opened Wrappers

  type Rows = multiset<string>

  /** `create table if not exists tasks (title text)`: an existing table is
      kept as it is; a missing one is created empty. */
  function CreateIfNotExists(existing: Option<Rows>): (t: Rows)
    ensures existing.Some? ==> t == existing.value
    ensures existing.None? ==> |t| == 0
  {
    match existing
    case Some(rows) => rows
    case None => multiset{}
  }

  /** `insert into tasks values (?)`: one more row with this title, and
      every other title keeps its count. */
  function Insert(t: Rows, title: string): (r: Rows)
    ensures r[title] == t[title] + 1
    ensures forall other :: other != title ==> r[other] == t[other]
    ensures |r| == |t| + 1
  {
    t + multiset{title}
  }

  /** `delete from tasks where title = ?`: every row with this title goes,
      however many there are; every other title keeps its count. */
  function DeleteWhereTitle(t: Rows, title: string): (r: Rows)
    ensures r[title] == 0
    ensures forall other :: other != title ==> r[other] == t[other]
    ensures |r| == |t| - t[title]
  {
    t[title := 0]
  }

  /** `delete from tasks`: no rows are left. */
  function DeleteAll(t: Rows): (r: Rows)
    ensures forall title :: r[title] == 0
  {
    multiset{}
  }
}
