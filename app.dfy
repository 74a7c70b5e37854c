/** `execute`: make sure the table exists, decide the command, run exactly one
    store operation and produce the lines to print. The branch name and the
    argument vector come in as parameters. */
module App {
  import opened Errors
  import opened Decimal
  import opened Commands
  import Tbl = Todos
  import opened Listing
  import opened Dao

  method Execute(db: DatabaseAccess, args: seq<string>, current: string) returns (r: Result<seq<Line>>)
    requires db.Valid()
    modifies db
    ensures db.Valid() && db.tableExists
    ensures match ParseFromArgs(args, current)
      case Err(e) =>
        r == Err(e) && db.rows == old(db.rows) && db.lastId == old(db.lastId)
      case Ok(List(branch, all)) =>
        && db.rows == old(db.rows) && db.lastId == old(db.lastId)
        && r == Ok(if all then AllBranchesListing(Tbl.SortByBranchThenId(db.rows), branch)
                   else BranchListing(Tbl.OnBranch(db.rows, branch)))
      case Ok(Todo(branch, content)) =>
        && r == Ok([Message(Added)])
        && db.lastId == old(db.lastId) + 1
        && db.rows == old(db.rows) + [Tbl.Todo(db.lastId, branch, content)]
      case Ok(Done(branch, ordinal)) =>
        && db.lastId == old(db.lastId)
        && var list := Tbl.OnBranch(old(db.rows), branch);
        if 1 <= ordinal <= |list| then
          r == Ok([Message(DoneMessage)]) && db.rows == Tbl.RemoveId(old(db.rows), list[ordinal - 1].id)
        else
          r == Ok([Message(NothingDone)]) && db.rows == old(db.rows)
      case Ok(Help) =>
        r == Ok([Message(Usage)]) && db.rows == old(db.rows) && db.lastId == old(db.lastId)
  {
    var _ := db.CreateTableIfNotExists();
    var command :- ParseFromArgs(args, current);
    // the table exists from here on, so no store call below fails
    match command {
      case List(branch, true) =>
        var items := db.ListAllTodos();
        var lines := ListAllBranches(items.value, branch);
        r := Ok(lines);
      case List(branch, false) =>
        var items := db.ListTodosOnBranch(branch);
        r := Ok(BranchListing(items.value));
      case Todo(branch, content) =>
        var affects := db.CreateTodo(branch, content);
        r := Ok([Message(Outcome(affects.value, Added, NothingAdded))]);
      case Done(branch, index) =>
        var affects := db.DeleteTodo(branch, index);
        r := Ok([Message(Outcome(affects.value, DoneMessage, NothingDone))]);
      case Help =>
        r := Ok([Message(Usage)]);
    }
  }

  /** The single-branch listing prints rank `i + 1` before the row of rank
      `i`, and `done` with that number, as printed, resolves to the same rank
      of the same branch. */
  lemma PrintedOrdinalNamesRow(rows: seq<Tbl.Todo>, branch: string, i: nat, program: string)
    requires i < |Tbl.OnBranch(rows, branch)|
    requires i + 1 <= I32Max
    ensures var line := BranchListing(Tbl.OnBranch(rows, branch))[i];
      && line == Item(i + 1, Tbl.OnBranch(rows, branch)[i].content, false)
      && Render(line) == FormatNat(i + 1) + "  " + Tbl.OnBranch(rows, branch)[i].content
      && ParseFromArgs([program, "done", FormatInt(line.ordinal)], branch) == Ok(Done(branch, i + 1))
  {
    var list := Tbl.OnBranch(rows, branch);
    var line := BranchListing(list)[i];
    assert line == Item(i + 1, list[i].content, false);
    assert Render(line) == "" + FormatNat(i + 1) + "  " + list[i].content;
    assert "" + FormatNat(i + 1) == FormatNat(i + 1);
    assert FormatInt(line.ordinal) == FormatNat(i + 1);
    DoneOrdinal(program, "done", i + 1, branch);
  }

  /** In the all-branches listing, the ordinal printed for a row is its rank
      in its own branch's list, so `done <branch>:<ordinal>` deletes exactly
      the row that was shown. */
  lemma AllBranchesOrdinalNamesRow(rows: seq<Tbl.Todo>, current: string, i: nat, program: string)
    requires Tbl.IdsIncreasing(rows)
    requires i < |rows|
    ensures var sorted := Tbl.SortByBranchThenId(rows);
      var list := Tbl.OnBranch(rows, sorted[i].branch);
      && |sorted| == |rows|
      && 1 <= Rank(sorted, i) <= |list|
      && list[Rank(sorted, i) - 1] == sorted[i]
      && (':' !in sorted[i].branch && Rank(sorted, i) <= I32Max ==>
            ParseFromArgs([program, "done", sorted[i].branch + ":" + FormatInt(Rank(sorted, i))], current)
              == Ok(Done(sorted[i].branch, Rank(sorted, i))))
  {
    var sorted := Tbl.SortByBranchThenId(rows);
    var b := sorted[i].branch;
    assert Tbl.DistinctIds(rows);
    Tbl.SortSorted(rows);
    Tbl.SortedContiguous(sorted);
    RankCountsBranch(sorted, i);
    Tbl.AllOnBranch(rows, b);
    RankInBranchList(sorted, i);
    if ':' !in b && Rank(sorted, i) <= I32Max {
      DoneOnBranch(program, "done", b, Rank(sorted, i), current);
    }
  }

  /** The row at position `i` is the last of its branch's rows up to `i`, so it
      stands in the branch's list right after the earlier ones. */
  lemma RankInBranchList(s: seq<Tbl.Todo>, i: nat)
    requires i < |s|
    ensures var list := Tbl.OnBranch(s, s[i].branch);
      && 1 <= |Tbl.OnBranch(s[..i + 1], s[i].branch)| <= |list|
      && list[|Tbl.OnBranch(s[..i + 1], s[i].branch)| - 1] == s[i]
  {
    var b := s[i].branch;
    assert s == s[..i + 1] + s[i + 1..];
    Tbl.OnBranchAppend(s[..i + 1], s[i + 1..], b);
    Tbl.AppendRow(s[..i], s[i], b);
    assert s[..i + 1] == s[..i] + [s[i]];
  }

  /** Adding "x" then "y" on one branch and finishing ordinal 1 leaves "y" as
      ordinal 1 of that branch. */
  method OrdinalReshuffle() returns (list: seq<Tbl.Todo>)
    ensures list == [Tbl.Todo(2, "main", "y")]
  {
    var db := new DatabaseAccess.Open();
    var _ := db.CreateTableIfNotExists();
    var _ := db.CreateTodo("main", "x");
    var _ := db.CreateTodo("main", "y");
    var done := db.DeleteTodo("main", 1);
    assert done == Ok(1);
    var listed := db.ListTodosOnBranch("main");
    list := listed.value;
  }
}
