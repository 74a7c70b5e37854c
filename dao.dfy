/** `dao::DatabaseAccess`: the `todos` table of `.git/info/todo.sqlite`, held in
    memory. The rows are kept in rowid order; `lastId` is what SQLite keeps for
    an AUTOINCREMENT key in `sqlite_sequence`, the largest id ever handed out. */
module Dao {
  import opened Errors
  import opened Todos

  class DatabaseAccess {
    var tableExists: bool
    var rows: seq<Todo>
    var lastId: int

    /** Ids are positive, never above the largest one handed out, and rows
        are stored in ascending id order; without a table there are no rows. */
    ghost predicate Valid()
      reads this
    {
      && (!tableExists ==> rows == [] && lastId == 0)
      && 0 <= lastId
      && IdsIncreasing(rows)
      && (forall t :: t in rows ==> 0 < t.id <= lastId)
    }

    /** `create_database_access`: opening a database file that holds no table yet. */
    constructor Open()
      ensures Valid()
      ensures !tableExists && rows == [] && lastId == 0
    {
      tableExists := false;
      rows := [];
      lastId := 0;
    }

    /** `CREATE TABLE IF NOT EXISTS todos (...)`: reports no changed rows and
        leaves an existing table and its rows alone. */
    method CreateTableIfNotExists() returns (r: Result<nat>)
      requires Valid()
      modifies this
      ensures Valid()
      ensures tableExists && rows == old(rows) && lastId == old(lastId)
      ensures r == Ok(0)
    {
      tableExists := true;
      r := Ok(0);
    }

    /** `INSERT INTO todos (branch, content) VALUES (?1, ?2)`: one new row at
        the end, with an id larger than any id handed out before. */
    method CreateTodo(branch: string, content: string) returns (r: Result<nat>)
      requires Valid()
      modifies this
      ensures Valid()
      ensures tableExists == old(tableExists)
      ensures !tableExists ==> r == Err(NoSuchTable) && rows == old(rows) && lastId == old(lastId)
      ensures tableExists ==>
        && r == Ok(1)
        && lastId == old(lastId) + 1
        && rows == old(rows) + [Todo(lastId, branch, content)]
        && (forall t :: t in old(rows) ==> t.id < lastId)
    {
      if !tableExists {
        return Err(NoSuchTable);
      }
      var t := Todo(lastId + 1, branch, content);
      forall i, j | 0 <= i < j < |rows + [t]| ensures (rows + [t])[i].id < (rows + [t])[j].id {
        assert (rows + [t])[i] in rows;
      }
      rows := rows + [t];
      lastId := lastId + 1;
      r := Ok(1);
    }

    /** `SELECT ... WHERE branch = ?1 ORDER BY id ASC`: exactly the rows of
        `branch`, in ascending id order, and an empty list for a branch
        without rows. */
    method ListTodosOnBranch(branch: string) returns (r: Result<seq<Todo>>)
      requires Valid()
      ensures !tableExists ==> r == Err(NoSuchTable)
      ensures tableExists ==>
        && r.Ok?
        && (forall t :: t in r.value <==> t in rows && t.branch == branch)
        && IdsIncreasing(r.value)
        && r.value == OnBranch(rows, branch)
    {
      if !tableExists {
        return Err(NoSuchTable);
      }
      OnBranchMembers(rows, branch);
      OnBranchIncreasing(rows, branch);
      r := Ok(OnBranch(rows, branch));
    }

    /** `SELECT ... ORDER BY branch, id ASC`, collected row by row: every row
        once, sorted by branch name and then by id. */
    method ListAllTodos() returns (r: Result<seq<Todo>>)
      requires Valid()
      ensures !tableExists ==> r == Err(NoSuchTable)
      ensures tableExists ==>
        && r.Ok?
        && multiset(r.value) == multiset(rows)
        && SortedByBranchThenId(r.value)
        && r.value == SortByBranchThenId(rows)
    {
      if !tableExists {
        return Err(NoSuchTable);
      }
      var todos := SortByBranchThenId(rows);
      var list: seq<Todo> := [];
      var i := 0;
      while i < |todos|
        invariant 0 <= i <= |todos|
        invariant list == todos[..i]
      {
        list := list + [todos[i]];
        i := i + 1;
      }
      assert list == todos;
      assert DistinctIds(rows);
      SortSorted(rows);
      r := Ok(list);
    }

    /** `DELETE FROM todos WHERE id = ?1`: removes the rows carrying `id` and
        reports how many there were. */
    method DeleteById(id: int) returns (r: Result<nat>)
      requires Valid()
      modifies this
      ensures Valid()
      ensures tableExists == old(tableExists) && lastId == old(lastId)
      ensures !tableExists ==> r == Err(NoSuchTable) && rows == old(rows)
      ensures tableExists ==> rows == RemoveId(old(rows), id) && r == Ok(|old(rows)| - |rows|)
    {
      if !tableExists {
        return Err(NoSuchTable);
      }
      var before := |rows|;
      RemoveIdMembers(rows, id);
      RemoveIdIncreasing(rows, id);
      RemoveIdShorter(rows, id);
      rows := RemoveId(rows, id);
      r := Ok(before - |rows|);
    }

    /** `delete_todo`: looks the 1-based `ordinal` up in the branch's current
        list and deletes the row found there by its id; an ordinal outside
        the list deletes nothing and reports 0. */
    method DeleteTodo(branch: string, ordinal: int) returns (r: Result<nat>)
      requires Valid()
      modifies this
      ensures Valid()
      ensures tableExists == old(tableExists) && lastId == old(lastId)
      ensures !tableExists ==> r == Err(NoSuchTable) && rows == old(rows)
      ensures tableExists && 1 <= ordinal <= |OnBranch(old(rows), branch)| ==>
        && r == Ok(1)
        && rows == RemoveId(old(rows), OnBranch(old(rows), branch)[ordinal - 1].id)
      ensures tableExists && !(1 <= ordinal <= |OnBranch(old(rows), branch)|) ==>
        r == Ok(0) && rows == old(rows)
    {
      var items :- ListTodosOnBranch(branch);
      var index := 0;
      while index < |items|
        invariant 0 <= index <= |items|
        invariant !(1 <= ordinal <= index)
        invariant rows == old(rows) && tableExists == old(tableExists) && lastId == old(lastId)
      {
        if index + 1 == ordinal {
          var item := items[index];
          OnBranchMembers(rows, branch);
          assert item in rows;
          var p :| 0 <= p < |rows| && rows[p] == item;
          RemoveIdAt(rows, p);
          r := DeleteById(item.id);
          return;
        }
        index := index + 1;
      }
      r := Ok(0);
    }
  }
}
