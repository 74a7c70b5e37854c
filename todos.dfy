/** The `todos` table as a value: its rows, and what the three SELECT/DELETE
    statements of the store compute from them. The rows are kept in the order
    they were inserted, which is also ascending id order. */
module Todos {
  import opened Strings

  /** `dao::Todo`: one row of the `todos` table. */
  datatype Todo = Todo(id: int, branch: string, content: string)

  /** Ids strictly increase along the sequence; in particular no id repeats. */
  predicate IdsIncreasing(rows: seq<Todo>)
  {
    forall i, j :: 0 <= i < j < |rows| ==> rows[i].id < rows[j].id
  }

  /** `SELECT ... WHERE branch = ?1`, keeping the table's order. */
  function OnBranch(rows: seq<Todo>, b: string): seq<Todo>
  {
    if rows == [] then []
    else (if rows[0].branch == b then [rows[0]] else []) + OnBranch(rows[1..], b)
  }

  /** `DELETE FROM todos WHERE id = ?1`. */
  function RemoveId(rows: seq<Todo>, id: int): seq<Todo>
  {
    if rows == [] then []
    else (if rows[0].id == id then [] else [rows[0]]) + RemoveId(rows[1..], id)
  }

  lemma {:induction false} RemoveIdShorter(rows: seq<Todo>, id: int)
    ensures |RemoveId(rows, id)| <= |rows|
  {
    if rows != [] {
      RemoveIdShorter(rows[1..], id);
    }
  }

  /** The branch filter keeps exactly the rows of that branch. */
  lemma {:induction false} OnBranchMembers(rows: seq<Todo>, b: string)
    ensures forall t :: t in OnBranch(rows, b) <==> t in rows && t.branch == b
  {
    if rows != [] {
      OnBranchMembers(rows[1..], b);
      assert rows == [rows[0]] + rows[1..];
    }
  }

  /** A branch no row belongs to has an empty list. */
  lemma {:induction false} OnBranchNone(rows: seq<Todo>, b: string)
    requires forall t :: t in rows ==> t.branch != b
    ensures OnBranch(rows, b) == []
  {
    if rows != [] {
      assert rows[0] in rows;
      OnBranchNone(rows[1..], b);
    }
  }

  /** Deleting by id keeps exactly the rows with another id. */
  lemma {:induction false} RemoveIdMembers(rows: seq<Todo>, id: int)
    ensures forall t :: t in RemoveId(rows, id) <==> t in rows && t.id != id
  {
    if rows != [] {
      RemoveIdMembers(rows[1..], id);
      assert rows == [rows[0]] + rows[1..];
    }
  }

  /** A row whose id is below every id of an increasing sequence can go in front. */
  lemma IncreasingCons(t: Todo, rows: seq<Todo>)
    requires IdsIncreasing(rows)
    requires forall u :: u in rows ==> t.id < u.id
    ensures IdsIncreasing([t] + rows)
  {
    var s := [t] + rows;
    forall i, j | 0 <= i < j < |s| ensures s[i].id < s[j].id {
      assert s[j] == rows[j - 1];
      if i > 0 {
        assert s[i] == rows[i - 1];
      }
    }
  }

  /** A branch's rows come out in ascending id order when the table's do. */
  lemma {:induction false} OnBranchIncreasing(rows: seq<Todo>, b: string)
    requires IdsIncreasing(rows)
    ensures IdsIncreasing(OnBranch(rows, b))
  {
    if rows != [] {
      OnBranchIncreasing(rows[1..], b);
      if rows[0].branch == b {
        OnBranchMembers(rows[1..], b);
        forall u | u in OnBranch(rows[1..], b) ensures rows[0].id < u.id {
          var j :| 0 <= j < |rows[1..]| && rows[1..][j] == u;
          assert rows[j + 1] == u;
        }
        IncreasingCons(rows[0], OnBranch(rows[1..], b));
      }
    }
  }

  /** Deleting by id keeps the remaining rows in ascending id order. */
  lemma {:induction false} RemoveIdIncreasing(rows: seq<Todo>, id: int)
    requires IdsIncreasing(rows)
    ensures IdsIncreasing(RemoveId(rows, id))
  {
    if rows != [] {
      RemoveIdIncreasing(rows[1..], id);
      if rows[0].id != id {
        RemoveIdMembers(rows[1..], id);
        forall u | u in RemoveId(rows[1..], id) ensures rows[0].id < u.id {
          var j :| 0 <= j < |rows[1..]| && rows[1..][j] == u;
          assert rows[j + 1] == u;
        }
        IncreasingCons(rows[0], RemoveId(rows[1..], id));
      }
    }
  }

  /** The branch filter distributes over concatenation. */
  lemma {:induction false} OnBranchAppend(a: seq<Todo>, c: seq<Todo>, b: string)
    ensures OnBranch(a + c, b) == OnBranch(a, b) + OnBranch(c, b)
  {
    if a == [] {
      assert a + c == c;
    } else {
      OnBranchAppend(a[1..], c, b);
      assert (a + c)[0] == a[0];
      assert (a + c)[1..] == a[1..] + c;
    }
  }

  lemma OnBranchCons(t: Todo, rows: seq<Todo>, b: string)
    ensures OnBranch([t] + rows, b) == (if t.branch == b then [t] else []) + OnBranch(rows, b)
  {
    assert ([t] + rows)[1..] == rows;
  }

  /** Appending a row adds it at the end of its own branch's list and leaves
      every other branch's list as it was. */
  lemma AppendRow(rows: seq<Todo>, t: Todo, b: string)
    ensures OnBranch(rows + [t], b)
         == if t.branch == b then OnBranch(rows, b) + [t] else OnBranch(rows, b)
  {
    OnBranchAppend(rows, [t], b);
    assert OnBranch([t], b) == (if t.branch == b then [t] else []) + OnBranch([], b);
  }

  /** Deleting an id that no row carries changes nothing. */
  lemma {:induction false} RemoveAbsent(rows: seq<Todo>, id: int)
    requires forall t :: t in rows ==> t.id != id
    ensures RemoveId(rows, id) == rows
  {
    if rows != [] {
      RemoveAbsent(rows[1..], id);
      assert rows == [rows[0]] + rows[1..];
    }
  }

  /** Deleting the id of the row at position `p` removes exactly that row. */
  lemma {:induction false} RemoveIdAt(rows: seq<Todo>, p: nat)
    requires IdsIncreasing(rows)
    requires p < |rows|
    ensures RemoveId(rows, rows[p].id) == rows[..p] + rows[p + 1..]
  {
    var id := rows[p].id;
    if p == 0 {
      forall t | t in rows[1..] ensures t.id != id {
        var j :| 0 <= j < |rows[1..]| && rows[1..][j] == t;
        assert rows[j + 1] == t;
      }
      RemoveAbsent(rows[1..], id);
    } else {
      RemoveIdAt(rows[1..], p - 1);
      assert rows[1..][p - 1] == rows[p];
      assert rows[..p] == [rows[0]] + rows[1..][..p - 1];
      assert rows[p + 1..] == rows[1..][p..];
    }
  }

  /** Every row after the first has a larger id than the first. */
  lemma FirstIdSmallest(rows: seq<Todo>)
    requires IdsIncreasing(rows) && rows != []
    ensures forall t :: t in rows[1..] ==> rows[0].id < t.id
  {
    forall t | t in rows[1..] ensures rows[0].id < t.id {
      var j :| 0 <= j < |rows[1..]| && rows[1..][j] == t;
      assert rows[j + 1] == t;
    }
  }

  /** Deleting by an id the first row does not carry keeps the first row. */
  lemma RemoveIdKeepsFirst(rows: seq<Todo>, id: int, b: string)
    requires rows != [] && rows[0].id != id
    ensures OnBranch(RemoveId(rows, id), b)
         == (if rows[0].branch == b then [rows[0]] else []) + OnBranch(RemoveId(rows[1..], id), b)
  {
    assert RemoveId(rows, id) == [rows[0]] + RemoveId(rows[1..], id);
    OnBranchCons(rows[0], RemoveId(rows[1..], id), b);
  }

  /** Deleting the first row's id removes just that row. */
  lemma DeleteHead(rows: seq<Todo>)
    requires IdsIncreasing(rows) && rows != []
    ensures RemoveId(rows, rows[0].id) == rows[1..]
  {
    FirstIdSmallest(rows);
    RemoveAbsent(rows[1..], rows[0].id);
  }

  /** Rank `k` of a branch, when it is not the first row, is a rank of the
      rest of the table and carries another id than the first row. */
  lemma RankInTail(rows: seq<Todo>, b: string, k: nat)
    requires IdsIncreasing(rows)
    requires k < |OnBranch(rows, b)|
    requires rows[0].branch != b || k > 0
    ensures var k' := if rows[0].branch == b then k - 1 else k;
      && k' < |OnBranch(rows[1..], b)|
      && OnBranch(rows, b)[k] == OnBranch(rows[1..], b)[k']
      && OnBranch(rows, b)[k].id != rows[0].id
  {
    var rest := OnBranch(rows[1..], b);
    var k' := if rows[0].branch == b then k - 1 else k;
    assert OnBranch(rows, b)[k] == rest[k'];
    OnBranchMembers(rows[1..], b);
    assert rest[k'] in rest;
    FirstIdSmallest(rows);
  }

  /** Deleting the row of rank `k` (0-based) of branch `b` takes it out of
      `b`'s list, so every later row moves up one rank. */
  lemma {:induction false} DeleteShiftsRanks(rows: seq<Todo>, b: string, k: nat)
    requires IdsIncreasing(rows)
    requires k < |OnBranch(rows, b)|
    ensures OnBranch(RemoveId(rows, OnBranch(rows, b)[k].id), b)
         == OnBranch(rows, b)[..k] + OnBranch(rows, b)[k + 1..]
  {
    var list := OnBranch(rows, b);
    var rest := OnBranch(rows[1..], b);
    var id := list[k].id;
    if rows[0].branch == b && k == 0 {
      DeleteHead(rows);
    } else {
      var k' := if rows[0].branch == b then k - 1 else k;
      RankInTail(rows, b, k);
      TailIncreasing(rows);
      DeleteShiftsRanks(rows[1..], b, k');
      RemoveIdKeepsFirst(rows, id, b);
      if rows[0].branch == b {
        assert list[..k] == [rows[0]] + rest[..k'];
        assert list[k + 1..] == rest[k' + 1..];
      }
    }
  }

  /** Deleting a row of one branch leaves every other branch's list as it was. */
  lemma {:induction false} RemoveKeepsOtherBranch(rows: seq<Todo>, id: int, c: string)
    requires forall t :: t in rows && t.id == id ==> t.branch != c
    ensures OnBranch(RemoveId(rows, id), c) == OnBranch(rows, c)
  {
    if rows != [] {
      RemoveKeepsOtherBranch(rows[1..], id, c);
      if rows[0].id != id {
        assert RemoveId(rows, id) == [rows[0]] + RemoveId(rows[1..], id);
        OnBranchCons(rows[0], RemoveId(rows[1..], id), c);
      } else {
        assert RemoveId(rows, id) == RemoveId(rows[1..], id);
        assert OnBranch(rows, c) == OnBranch(rows[1..], c);
      }
    }
  }

  /** The order of `ORDER BY branch, id ASC`: branch names by SQLite's BINARY
      collation, then ids ascending. */
  predicate RowLess(x: Todo, y: Todo)
  {
    Less(x.branch, y.branch) || (x.branch == y.branch && x.id < y.id)
  }

  lemma RowLessTransitive(x: Todo, y: Todo, z: Todo)
    requires RowLess(x, y) && RowLess(y, z)
    ensures RowLess(x, z)
  {
    if Less(x.branch, y.branch) && Less(y.branch, z.branch) {
      LessTransitive(x.branch, y.branch, z.branch);
    }
  }

  /** Two rows with different ids are ordered one way or the other. */
  lemma RowLessTotal(x: Todo, y: Todo)
    requires x.id != y.id
    ensures RowLess(x, y) || RowLess(y, x)
  {
    if x.branch != y.branch {
      LessTotal(x.branch, y.branch);
    }
  }

  predicate SortedByBranchThenId(s: seq<Todo>)
  {
    forall i, j :: 0 <= i < j < |s| ==> RowLess(s[i], s[j])
  }

  predicate DistinctIds(s: seq<Todo>)
  {
    forall i, j :: 0 <= i < j < |s| ==> s[i].id != s[j].id
  }

  function Insert(x: Todo, s: seq<Todo>): (r: seq<Todo>)
    ensures multiset(r) == multiset(s) + multiset{x}
    ensures |r| == |s| + 1
  {
    if s == [] then [x]
    else if RowLess(x, s[0]) then [x] + s
    else
      assert s == [s[0]] + s[1..];
      [s[0]] + Insert(x, s[1..])
  }

  /** The rows `SELECT ... ORDER BY branch, id ASC` returns. */
  function SortByBranchThenId(s: seq<Todo>): (r: seq<Todo>)
    ensures multiset(r) == multiset(s)
    ensures |r| == |s|
  {
    if s == [] then []
    else
      assert s == [s[0]] + s[1..];
      Insert(s[0], SortByBranchThenId(s[1..]))
  }

  lemma SortedCons(x: Todo, s: seq<Todo>)
    requires SortedByBranchThenId(s)
    requires forall u :: u in s ==> RowLess(x, u)
    ensures SortedByBranchThenId([x] + s)
  {
    var r := [x] + s;
    forall i, j | 0 <= i < j < |r| ensures RowLess(r[i], r[j]) {
      assert r[j] == s[j - 1];
      if i > 0 {
        assert r[i] == s[i - 1];
      }
    }
  }

  lemma {:induction false} InsertSorted(x: Todo, s: seq<Todo>)
    requires SortedByBranchThenId(s)
    requires forall u :: u in s ==> u.id != x.id
    ensures SortedByBranchThenId(Insert(x, s))
  {
    if s == [] {
    } else if RowLess(x, s[0]) {
      forall u | u in s ensures RowLess(x, u) {
        var j :| 0 <= j < |s| && s[j] == u;
        if j > 0 {
          RowLessTransitive(x, s[0], u);
        }
      }
      SortedCons(x, s);
    } else {
      RowLessTotal(x, s[0]);
      var tail := s[1..];
      InsertSorted(x, tail);
      forall u | u in Insert(x, tail) ensures RowLess(s[0], u) {
        assert u in multiset(Insert(x, tail));
        if u != x {
          assert u in multiset(tail);
          var j :| 0 <= j < |tail| && tail[j] == u;
          assert s[j + 1] == u;
        }
      }
      SortedCons(s[0], Insert(x, tail));
    }
  }

  /** When no id repeats, the query's rows are sorted by branch, then id. */
  lemma {:induction false} SortSorted(s: seq<Todo>)
    requires DistinctIds(s)
    ensures SortedByBranchThenId(SortByBranchThenId(s))
  {
    if s != [] {
      var tail := s[1..];
      assert DistinctIds(tail) by {
        forall i, j | 0 <= i < j < |tail| ensures tail[i].id != tail[j].id {
          assert tail[i] == s[i + 1] && tail[j] == s[j + 1];
        }
      }
      SortSorted(tail);
      forall u | u in SortByBranchThenId(tail) ensures u.id != s[0].id {
        assert u in multiset(SortByBranchThenId(tail));
        assert u in multiset(tail);
        var j :| 0 <= j < |tail| && tail[j] == u;
        assert s[j + 1] == u;
      }
      InsertSorted(s[0], SortByBranchThenId(tail));
    }
  }

  /** Rows of one branch stand together: nothing of another branch lies between them. */
  predicate Contiguous(s: seq<Todo>)
  {
    forall i, j, k :: 0 <= i < j < k < |s| && s[i].branch == s[k].branch ==> s[j].branch == s[i].branch
  }

  lemma SortedContiguous(s: seq<Todo>)
    requires SortedByBranchThenId(s)
    ensures Contiguous(s)
  {
    forall i, j, k | 0 <= i < j < k < |s| && s[i].branch == s[k].branch
      ensures s[j].branch == s[i].branch
    {
      assert RowLess(s[i], s[j]) && RowLess(s[j], s[k]);
      if s[j].branch != s[i].branch {
        LessAsymmetric(s[i].branch, s[j].branch);
      }
    }
  }

  /** How often the branch filter keeps each row. */
  lemma {:induction false} OnBranchCount(s: seq<Todo>, b: string, x: Todo)
    ensures multiset(OnBranch(s, b))[x] == if x.branch == b then multiset(s)[x] else 0
  {
    if s != [] {
      OnBranchCount(s[1..], b, x);
      assert s == [s[0]] + s[1..];
    }
  }

  /** Two nonempty sequences with increasing ids and the same rows start alike. */
  lemma SameFirst(s: seq<Todo>, t: seq<Todo>)
    requires IdsIncreasing(s) && IdsIncreasing(t)
    requires s != [] && multiset(s) == multiset(t)
    ensures t != [] && s[0] == t[0]
  {
    assert s[0] in multiset(t);
    var j :| 0 <= j < |t| && t[j] == s[0];
    assert t[0] in multiset(s);
    var i :| 0 <= i < |s| && s[i] == t[0];
    assert s[0].id <= s[i].id;
    assert t[0].id <= t[j].id;
  }

  lemma TailIncreasing(s: seq<Todo>)
    requires IdsIncreasing(s) && s != []
    ensures IdsIncreasing(s[1..])
  {
    forall i, j | 0 <= i < j < |s[1..]| ensures s[1..][i].id < s[1..][j].id {
      assert s[1..][i] == s[i + 1] && s[1..][j] == s[j + 1];
    }
  }

  /** Two sequences with strictly increasing ids and the same rows are equal. */
  lemma {:induction false} IncreasingUnique(s: seq<Todo>, t: seq<Todo>)
    requires IdsIncreasing(s) && IdsIncreasing(t)
    requires multiset(s) == multiset(t)
    ensures s == t
  {
    if s == [] {
      assert |t| == |multiset(t)| == 0;
    } else {
      SameFirst(s, t);
      assert s == [s[0]] + s[1..] && t == [t[0]] + t[1..];
      assert multiset(s[1..]) == multiset(s) - multiset{s[0]};
      assert multiset(t[1..]) == multiset(t) - multiset{s[0]};
      TailIncreasing(s);
      TailIncreasing(t);
      IncreasingUnique(s[1..], t[1..]);
    }
  }

  /** Within one branch, a sorted sequence is in ascending id order. */
  lemma {:induction false} SortedOnBranchIncreasing(s: seq<Todo>, b: string)
    requires SortedByBranchThenId(s)
    ensures IdsIncreasing(OnBranch(s, b))
  {
    if s != [] {
      SortedOnBranchIncreasing(s[1..], b);
      if s[0].branch == b {
        OnBranchMembers(s[1..], b);
        forall u | u in OnBranch(s[1..], b) ensures s[0].id < u.id {
          var j :| 0 <= j < |s[1..]| && s[1..][j] == u;
          assert RowLess(s[0], s[j + 1]);
          LessIrreflexive(b);
        }
        IncreasingCons(s[0], OnBranch(s[1..], b));
      }
    }
  }

  /** The all-branches query shows each branch's rows in the same order as the
      single-branch query, so both give a row the same rank. */
  lemma AllOnBranch(rows: seq<Todo>, b: string)
    requires IdsIncreasing(rows)
    ensures OnBranch(SortByBranchThenId(rows), b) == OnBranch(rows, b)
  {
    var sorted := SortByBranchThenId(rows);
    SortSorted(rows);
    SortedOnBranchIncreasing(sorted, b);
    OnBranchIncreasing(rows, b);
    forall x ensures multiset(OnBranch(sorted, b))[x] == multiset(OnBranch(rows, b))[x] {
      OnBranchCount(sorted, b, x);
      OnBranchCount(rows, b, x);
    }
    assert multiset(OnBranch(sorted, b)) == multiset(OnBranch(rows, b));
    IncreasingUnique(OnBranch(sorted, b), OnBranch(rows, b));
  }
}
