/** What `execute` prints for the two listings and the two updates, as a
    sequence of lines rather than as writes to standard output. */
module Listing {
  import opened Todos
  import opened Strings
  import opened Decimal

  datatype Line =
    | Header(branch: string, isCurrent: bool)
    | Item(ordinal: nat, content: string, indented: bool)
    | Message(text: string)

  /** The text `println!` writes for a line. A header starts with `*` when it
      names the current branch and with a space otherwise, followed by the
      branch name; an item ends in two spaces and its content. */
  function Render(line: Line): (text: string)
    ensures line.Header? ==> |text| == |line.branch| + 1 && (text[0] == '*' <==> line.isCurrent) && text[1..] == line.branch
    ensures line.Header? ==> text[0] == (if line.isCurrent then '*' else ' ')
    ensures line.Item? ==>
      && |text| >= |line.content| + 2
      && text[|text| - |line.content|..] == line.content
      && text[|text| - |line.content| - 2..|text| - |line.content|] == "  "
    ensures line.Message? ==> text == line.text
  {
    match line
    case Header(branch, isCurrent) => (if isCurrent then "*" else " ") + branch
    case Item(ordinal, content, indented) => (if indented then "\t" else "") + FormatNat(ordinal) + "  " + content
    case Message(text) => text
  }

  /** The text of an item line starts with its ordinal as one word, which reads
      back as that ordinal; an item of the all-branches listing is indented
      by one tab before it. */
  lemma ItemOrdinalReadsBack(ordinal: nat, content: string, indented: bool)
    requires 1 <= ordinal <= I32Max
    ensures var text := Render(Item(ordinal, content, indented));
      var unindented := if indented then text[1..] else text;
      && (indented <==> text[0] == '\t')
      && ' ' !in Split(unindented, ' ')[0]
      && ParseI32(Split(unindented, ' ')[0]) == Value(ordinal)
  {
    var word := FormatNat(ordinal);
    var text := Render(Item(ordinal, content, indented));
    var unindented := if indented then text[1..] else text;
    assert text[0] == '\t' ==> indented by {
      if !indented {
        assert text[0] == word[0];
      }
    }
    assert unindented == word + [' '] + (" " + content);
    assert ' ' !in word by {
      assert forall k :: 0 <= k < |word| ==> IsDigit(word[k]);
    }
    SplitAtFirst(word, ' ', " " + content);
    ParseFormat(ordinal);
  }

  const Added := "Added it!"
  const NothingAdded := "Nothing is added!"
  const DoneMessage := "DONE! Good Job!"
  const NothingDone := "Nothing is DONE!"
  const Usage := "More usages see https://github.com/dspo/git-todo?tab=readme-ov-file#usage"

  /** The message after an insert or a delete: success exactly when a row changed. */
  function Outcome(affected: nat, success: string, nothing: string): string
  {
    if affected > 0 then success else nothing
  }

  /** The single-branch listing: each row's content after its 1-based rank. */
  function BranchListing(todos: seq<Todo>): (lines: seq<Line>)
  {
    seq(|todos|, i requires 0 <= i < |todos| => Item(i + 1, todos[i].content, false))
  }

  /** Row `i` opens a group of the all-branches listing: its branch differs
      from the previous row's, the first row being compared with "". */
  predicate StartsGroup(rows: seq<Todo>, i: nat)
    requires i < |rows|
  {
    rows[i].branch != (if i == 0 then "" else rows[i - 1].branch)
  }

  /** The ordinal the all-branches listing prints for row `i`: 1 where a group
      opens, one more than the row before otherwise. */
  function Rank(rows: seq<Todo>, i: nat): (k: nat)
    requires i < |rows|
  {
    if i == 0 || StartsGroup(rows, i) then 1 else Rank(rows, i - 1) + 1
  }

  /** The lines printed for row `i`: a header if it opens a group, `*` marking
      the current branch, then the row itself. */
  function Block(rows: seq<Todo>, current: string, i: nat): seq<Line>
    requires i < |rows|
  {
    (if StartsGroup(rows, i) then [Header(rows[i].branch, rows[i].branch == current)] else [])
    + [Item(Rank(rows, i), rows[i].content, true)]
  }

  /** The lines printed for the first `n` rows. */
  function Blocks(rows: seq<Todo>, current: string, n: nat): seq<Line>
    requires n <= |rows|
  {
    if n == 0 then [] else Blocks(rows, current, n - 1) + Block(rows, current, n - 1)
  }

  function AllBranchesListing(rows: seq<Todo>, current: string): seq<Line>
  {
    Blocks(rows, current, |rows|)
  }

  /** The loop of `execute` for `List(branch, true)`: walks the rows once,
      remembering the previous branch and the running ordinal. */
  method ListAllBranches(items: seq<Todo>, current: string) returns (lines: seq<Line>)
    ensures lines == AllBranchesListing(items, current)
  {
    lines := [];
    var lastBranch := "";
    var index := 0;
    var i := 0;
    while i < |items|
      invariant 0 <= i <= |items|
      invariant lastBranch == if i == 0 then "" else items[i - 1].branch
      invariant index == if i == 0 then 0 else Rank(items, i - 1)
      invariant lines == Blocks(items, current, i)
    {
      var item := items[i];
      if item.branch != lastBranch {
        index := 0;
        lastBranch := item.branch;
        if item.branch == current {
          lines := lines + [Header(item.branch, true)];
        } else {
          lines := lines + [Header(item.branch, false)];
        }
      }
      index := index + 1;
      lines := lines + [Item(index, item.content, true)];
      i := i + 1;
    }
  }

  /** The contents of the item lines, in order. */
  function ItemContents(lines: seq<Line>): seq<string>
  {
    if lines == [] then []
    else (if lines[0].Item? then [lines[0].content] else []) + ItemContents(lines[1..])
  }

  /** The branch names of the header lines, in order. */
  function HeaderBranches(lines: seq<Line>): seq<string>
  {
    if lines == [] then []
    else (if lines[0].Header? then [lines[0].branch] else []) + HeaderBranches(lines[1..])
  }

  function Contents(rows: seq<Todo>): seq<string>
  {
    seq(|rows|, i requires 0 <= i < |rows| => rows[i].content)
  }

  lemma {:induction false} ItemContentsAppend(a: seq<Line>, b: seq<Line>)
    ensures ItemContents(a + b) == ItemContents(a) + ItemContents(b)
  {
    if a == [] {
      assert a + b == b;
    } else {
      var head := if a[0].Item? then [a[0].content] else [];
      ItemContentsAppend(a[1..], b);
      assert (a + b)[0] == a[0];
      assert (a + b)[1..] == a[1..] + b;
      assert ItemContents(a + b) == head + ItemContents(a[1..] + b);
      assert ItemContents(a) == head + ItemContents(a[1..]);
      assert head + (ItemContents(a[1..]) + ItemContents(b)) == (head + ItemContents(a[1..])) + ItemContents(b);
    }
  }

  lemma {:induction false} HeaderBranchesAppend(a: seq<Line>, b: seq<Line>)
    ensures HeaderBranches(a + b) == HeaderBranches(a) + HeaderBranches(b)
  {
    if a == [] {
      assert a + b == b;
    } else {
      var head := if a[0].Header? then [a[0].branch] else [];
      HeaderBranchesAppend(a[1..], b);
      assert (a + b)[0] == a[0];
      assert (a + b)[1..] == a[1..] + b;
      assert HeaderBranches(a + b) == head + HeaderBranches(a[1..] + b);
      assert HeaderBranches(a) == head + HeaderBranches(a[1..]);
      assert head + (HeaderBranches(a[1..]) + HeaderBranches(b)) == (head + HeaderBranches(a[1..])) + HeaderBranches(b);
    }
  }

  /** One block holds the row's content once, and a header only where a group opens. */
  lemma BlockParts(rows: seq<Todo>, current: string, i: nat)
    requires i < |rows|
    ensures ItemContents(Block(rows, current, i)) == [rows[i].content]
    ensures HeaderBranches(Block(rows, current, i))
         == if StartsGroup(rows, i) then [rows[i].branch] else []
  {
    var item := Item(Rank(rows, i), rows[i].content, true);
    assert ItemContents([item]) == [rows[i].content] + ItemContents([]);
    assert HeaderBranches([item]) == [] + HeaderBranches([]);
    if StartsGroup(rows, i) {
      var header := Header(rows[i].branch, rows[i].branch == current);
      ItemContentsAppend([header], [item]);
      HeaderBranchesAppend([header], [item]);
      assert ItemContents([header]) == [] + ItemContents([]);
      assert HeaderBranches([header]) == [rows[i].branch] + HeaderBranches([]);
    } else {
      assert Block(rows, current, i) == [item];
    }
  }

  /** The all-branches listing shows every row's content exactly once, in the
      order of the rows it is given. */
  lemma {:induction false} ListingShowsEveryRow(rows: seq<Todo>, current: string, n: nat)
    requires n <= |rows|
    ensures ItemContents(Blocks(rows, current, n)) == Contents(rows[..n])
  {
    if n > 0 {
      ListingShowsEveryRow(rows, current, n - 1);
      ItemContentsAppend(Blocks(rows, current, n - 1), Block(rows, current, n - 1));
      BlockParts(rows, current, n - 1);
    }
  }

  /** A header is marked `*` exactly when it names the current branch. */
  lemma {:induction false} HeaderMarksCurrent(rows: seq<Todo>, current: string, n: nat)
    requires n <= |rows|
    ensures forall k :: 0 <= k < |Blocks(rows, current, n)| && Blocks(rows, current, n)[k].Header? ==>
      (Blocks(rows, current, n)[k].isCurrent <==> Blocks(rows, current, n)[k].branch == current)
  {
    if n > 0 {
      HeaderMarksCurrent(rows, current, n - 1);
      var before := Blocks(rows, current, n - 1);
      var block := Block(rows, current, n - 1);
      assert Blocks(rows, current, n) == before + block;
      forall k | 0 <= k < |block| && block[k].Header?
        ensures block[k].isCurrent <==> block[k].branch == current
      {
      }
    }
  }

  /** Every header names the branch of an earlier row. */
  lemma {:induction false} HeadersFromRows(rows: seq<Todo>, current: string, n: nat)
    requires n <= |rows|
    ensures forall h :: h in HeaderBranches(Blocks(rows, current, n)) ==>
      exists j :: 0 <= j < n && rows[j].branch == h
  {
    if n > 0 {
      HeadersFromRows(rows, current, n - 1);
      var before := HeaderBranches(Blocks(rows, current, n - 1));
      HeadersStep(rows, current, n);
      forall h | h in HeaderBranches(Blocks(rows, current, n))
        ensures exists j :: 0 <= j < n && rows[j].branch == h
      {
        if h in before {
          var j :| 0 <= j < n - 1 && rows[j].branch == h;
          assert 0 <= j < n && rows[j].branch == h;
        } else {
          assert rows[n - 1].branch == h;
        }
      }
    }
  }

  /** On rows sorted by branch, the headers name branches in strictly
      increasing order, so no branch gets two. */
  lemma {:induction false} HeadersIncreasing(rows: seq<Todo>, current: string, n: nat)
    requires SortedByBranchThenId(rows)
    requires n <= |rows|
    ensures forall i, j :: 0 <= i < j < |HeaderBranches(Blocks(rows, current, n))| ==>
      Less(HeaderBranches(Blocks(rows, current, n))[i], HeaderBranches(Blocks(rows, current, n))[j])
  {
    if n > 0 {
      HeadersIncreasing(rows, current, n - 1);
      var before := HeaderBranches(Blocks(rows, current, n - 1));
      HeadersStep(rows, current, n);
      if StartsGroup(rows, n - 1) && n > 1 {
        var b := rows[n - 1].branch;
        HeadersFromRows(rows, current, n - 1);
        forall i | 0 <= i < |before| ensures Less(before[i], b) {
          assert before[i] in before;
          HeaderBelow(rows, n, before[i]);
        }
        var all := before + [b];
        assert HeaderBranches(Blocks(rows, current, n)) == all;
        forall i, j | 0 <= i < j < |all| ensures Less(all[i], all[j]) {
          if j < |before| {
            assert all[i] == before[i] && all[j] == before[j];
          } else {
            assert all[i] == before[i] && all[j] == b;
          }
        }
      }
    }
  }

  /** A branch seen before the row that opens the last group sorts below it. */
  lemma HeaderBelow(rows: seq<Todo>, n: nat, h: string)
    requires SortedByBranchThenId(rows)
    requires 1 < n <= |rows| && StartsGroup(rows, n - 1)
    requires exists j :: 0 <= j < n - 1 && rows[j].branch == h
    ensures Less(h, rows[n - 1].branch)
  {
    var j :| 0 <= j < n - 1 && rows[j].branch == h;
    assert RowLess(rows[j], rows[n - 1]);
    if h == rows[n - 1].branch {
      SortedContiguous(rows);
    }
  }

  /** Each step of the walk adds a header exactly where a group opens. */
  lemma HeadersStep(rows: seq<Todo>, current: string, n: nat)
    requires 0 < n <= |rows|
    ensures HeaderBranches(Blocks(rows, current, n))
         == HeaderBranches(Blocks(rows, current, n - 1))
          + (if StartsGroup(rows, n - 1) then [rows[n - 1].branch] else [])
  {
    HeaderBranchesAppend(Blocks(rows, current, n - 1), Block(rows, current, n - 1));
    BlockParts(rows, current, n - 1);
  }

  /** Every branch with a non-empty name gets a header; only a leading group
      named "" goes without one, since the walk starts from "". */
  lemma {:induction false} EveryBranchHasHeader(rows: seq<Todo>, current: string, n: nat)
    requires n <= |rows|
    ensures forall i :: 0 <= i < n && rows[i].branch != "" ==>
      rows[i].branch in HeaderBranches(Blocks(rows, current, n))
  {
    if n > 0 {
      EveryBranchHasHeader(rows, current, n - 1);
      var before := HeaderBranches(Blocks(rows, current, n - 1));
      HeadersStep(rows, current, n);
      var all := HeaderBranches(Blocks(rows, current, n));
      forall i | 0 <= i < n && rows[i].branch != "" ensures rows[i].branch in all {
        if i < n - 1 {
          assert rows[i].branch in before;
        } else if !StartsGroup(rows, i) {
          assert rows[i - 1].branch in before;
        }
      }
    }
  }

  /** On rows where each branch stands together, the ordinal printed for a
      row is its rank among the rows of its branch so far. */
  lemma {:induction false} RankCountsBranch(rows: seq<Todo>, i: nat)
    requires Contiguous(rows)
    requires i < |rows|
    ensures Rank(rows, i) == |OnBranch(rows[..i + 1], rows[i].branch)|
  {
    var b := rows[i].branch;
    AppendRow(rows[..i], rows[i], b);
    assert rows[..i + 1] == rows[..i] + [rows[i]];
    if i == 0 {
      assert rows[..0] == [];
    } else if StartsGroup(rows, i) {
      forall t | t in rows[..i] ensures t.branch != b {
        var j :| 0 <= j < i && rows[..i][j] == t;
        assert rows[j] == t;
      }
      OnBranchNone(rows[..i], b);
    } else {
      RankCountsBranch(rows, i - 1);
      assert rows[..i - 1 + 1] == rows[..i];
    }
  }
}
