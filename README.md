# git-todo, modelled in Dafny

`git todo` keeps one list of short notes per branch of a git working copy.
The notes sit in a SQLite table `todos(id INTEGER PRIMARY KEY AUTOINCREMENT,
branch TEXT, content TEXT)`. A user names a note by its 1-based ordinal within
its branch's list, not by its id. This project models the core of
`src/main.rs`:

- the store, `dao::DatabaseAccess`. It is a class over an in-memory table
  (`Dao.DatabaseAccess`) holding the rows in rowid order, the largest id
  handed out so far (`lastId`, what SQLite keeps in `sqlite_sequence`), and
  whether the table has been created yet. Its methods are proved against
  pure functions over the rows (module `Todos`): the branch filter, delete by
  id, and the `ORDER BY branch, id` sort.
- `Command::parse_from_args` (`Commands.ParseFromArgs`). It is a pure
  function of the argument vector and the current branch name. It uses
  Rust's `split(':')`/`join(" ")` (module `Strings`) and `str::parse::<i32>`
  with its error messages (module `Decimal`).
- the listing and result branches of `execute` (modules `Listing` and
  `App`). The lines to print are produced as values. The all-branches loop
  is a method proved against a specification of the grouped listing.

Branch names are ordered as SQLite's BINARY collation orders them: bytewise
over UTF-8. Code points compare in the same order as their UTF-8 bytes, so
`Strings.Less` compares characters.

The program validates nothing beyond what the code shows:

- a todo with empty content is stored, because nothing validates it;
- a branch name is not checked to be non-empty;
- the all-branches walk starts from the branch name `""`. A leading group of
  rows whose branch is `""` therefore gets no header (`Listing.StartsGroup`).
  Git never reports an empty branch name, so this cannot happen in practice.

## Model

| member | source | states |
|---|---|---|
| Dao.DatabaseAccess.Open | src/main.rs:104-106 | opening a fresh database file: no table, no rows, no id handed out |
| Dao.DatabaseAccess.CreateTableIfNotExists | src/main.rs:108-117 | afterwards the table exists; the rows and the id counter are unchanged, so a second call changes nothing and does not fail |
| Dao.DatabaseAccess.CreateTodo | src/main.rs:119-121 | without a table it fails with "no such table" and changes nothing; otherwise it returns 1 and appends exactly one row `(id, branch, content)` whose id is one more than the last id and above every existing id |
| Dao.DatabaseAccess.ListTodosOnBranch | src/main.rs:123-134 | the result holds exactly the rows of the branch, in strictly ascending id order; a branch without rows gives an empty list, not an error |
| Dao.DatabaseAccess.ListAllTodos | src/main.rs:136-150 | the loop collects a permutation of all rows, sorted by branch name and then by id |
| Dao.DatabaseAccess.DeleteById | src/main.rs:156 | removes the rows with that id and returns how many there were |
| Dao.DatabaseAccess.DeleteTodo | src/main.rs:152-160 | for 1 <= k <= the branch's row count, returns 1 and deletes by id the row at rank k of the branch's current list; for any other k, including a branch with no rows, returns 0 and leaves the table unchanged |
| Todos.OnBranchMembers | src/main.rs:124 | the branch filter keeps exactly the rows whose branch equals the argument |
| Todos.OnBranchIncreasing | src/main.rs:124 | the rows of one branch come out in strictly ascending id order |
| Todos.OnBranchAppend | src/main.rs:120 | each branch's list of a table grown by appends is the old list followed by the appended rows of that branch, in call order |
| Todos.AppendRow | src/main.rs:119-121 | one insert puts the row at the end of its own branch's list and leaves every other branch's list unchanged |
| Todos.RemoveIdMembers | src/main.rs:156 | deleting by id keeps exactly the rows with another id |
| Todos.RemoveIdIncreasing | src/main.rs:156 | the rows left after a delete are still in ascending id order |
| Todos.RemoveIdAt | src/main.rs:156 | with unique ids, deleting the id of the row at position p removes exactly that row and keeps the others in order |
| Todos.DeleteShiftsRanks | src/main.rs:152-157 | deleting the row of rank k removes it from its branch's list; the former rank k+1 becomes rank k |
| Todos.RemoveKeepsOtherBranch | src/main.rs:156 | deleting a row of one branch leaves every other branch's list unchanged |
| Todos.SortByBranchThenId | src/main.rs:137 | the `ORDER BY branch, id` query returns a permutation of the table |
| Todos.SortSorted | src/main.rs:137 | when ids are unique, that result is strictly sorted by branch, then by id |
| Todos.SortedContiguous | src/main.rs:137 | in that order the rows of one branch stand together |
| Todos.IncreasingUnique | src/main.rs:124 | two lists with strictly increasing ids and the same rows are equal, so a branch's ordered list is determined by its rows |
| Todos.AllOnBranch | src/main.rs:137 | within the all-branches result, each branch's rows appear in the same order as `list_todos_on_branch` gives them |
| Strings.LessTotal | src/main.rs:137 | two different branch names are always ordered one way or the other by the collation |
| Strings.LessTransitive | src/main.rs:137 | the collation order is transitive |
| Strings.SplitPieces | src/main.rs:83 | no piece of `split(':')` contains a colon, and there is exactly one piece iff the argument holds no colon |
| Strings.JoinSplit | src/main.rs:83 | joining the pieces of `split(':')` with ':' gives back the argument |
| Strings.SplitAtFirst | src/main.rs:83-84 | for `branch:rest` with a colon-free branch, the first piece is the branch |
| Strings.SplitJoin | src/main.rs:94 | splitting the joined words of a todo at spaces gives back the words when none holds a space |
| Decimal.ParseI32 | src/main.rs:85-88 | a parsed ordinal lies in the i32 range; exactly the empty string is refused as empty |
| Decimal.ParseI32Meaning | src/main.rs:85-88 | `parse::<i32>` accepts exactly an optional sign followed by at least one digit whose value fits in 32 bits, and returns that signed value; every other string is refused |
| Decimal.ParseLeadingNonDigit | src/main.rs:85-88 | a non-empty text with no digit right after the optional sign is refused as an invalid digit |
| Decimal.Describe | src/main.rs:87 | the message of a refused ordinal is Rust's `ParseIntError` text for the reason; the two overflow reasons, and only they, read "number too …" |
| Decimal.DescribeDistinct | src/main.rs:87 | each reason for refusing an ordinal has its own message |
| Decimal.ParseFormat | src/main.rs:85 | parsing the decimal text of any i32 gives back that number |
| Commands.ParseFromArgs | src/main.rs:70-95 | a list results iff there are no arguments or one lone all-branches flag, and it is all-branches iff that flag is given; errors only arise after `done`/`-`, and a missing ordinal gives "missing done index"; `done t` with a colon-free `t` is `Done(current, n)` when `t` parses to `n` and otherwise the parse error's message; `done b:t` is `Done(b, n)` when the second colon-separated piece parses to `n` and otherwise that error; a parsed ordinal is in the i32 range; help results iff the first argument is a help flag; a todo results in every remaining case, holding the arguments joined with spaces, for the current branch |
| Commands.DoneOrdinal | src/main.rs:79-89 | `done n`, with n printed in decimal, deletes rank n of the current branch |
| Commands.DoneAccepts | src/main.rs:83-89 | `done t` with a colon-free `t` succeeds exactly when `t` is an optional sign, at least one digit and a magnitude that fits in 32 bits, and then addresses that signed number on the current branch |
| Commands.DoneWithBranch | src/main.rs:83-89 | for a colon-free branch b, `done b:t` addresses branch b with the ordinal read from `t` up to its next colon |
| Commands.DoneOnBranch | src/main.rs:83-89 | `done b:n` addresses rank n of branch b when b holds no colon |
| Commands.DoneNotANumber | src/main.rs:85-88 | a non-empty colon-free ordinal that is not a sign followed by digits is refused, never with the empty-string message; with "invalid digit found in string" when the character after the sign is no digit (digits before a later non-digit can overflow first) |
| Commands.DoneEmptyOrdinal | src/main.rs:83-88 | `done ""` and `done b:` are refused with "cannot parse integer from empty string" |
| Commands.TodoWords | src/main.rs:94 | the content of an added todo splits back into the words it was given as |
| Listing.Render | src/main.rs:23-36 | a header line is `*` for the current branch and a space otherwise, then the branch name; an item line ends in two spaces and the content; a message line is its text |
| Listing.ItemOrdinalReadsBack | src/main.rs:29-36 | an item line starts (after one tab in the all-branches listing) with its ordinal as one word, and that word parses back to the ordinal |
| Listing.ListAllBranches | src/main.rs:13-31 | the loop's lines are exactly the grouped listing: a header where the branch changes from the previous row's, and each row with its ordinal |
| Listing.ListingShowsEveryRow | src/main.rs:18-30 | the all-branches listing shows every row's content exactly once, in input order |
| Listing.HeaderMarksCurrent | src/main.rs:22-26 | a header is marked `*` exactly when it names the current branch |
| Listing.HeadersIncreasing | src/main.rs:19-27 | on input sorted by branch, header names strictly increase, so no branch gets two headers |
| Listing.EveryBranchHasHeader | src/main.rs:16-27 | every branch with a non-empty name gets a header |
| Listing.RankCountsBranch | src/main.rs:17-28 | when each branch's rows stand together, the ordinal printed for a row is its rank among its branch's rows so far: ordinals restart at 1 and run 1..m per branch |
| App.Execute | src/main.rs:7-60 | creates the table first, then runs exactly the store operation the command names; it prints "Added it!" after an insert, "DONE! Good Job!" when a row was deleted and "Nothing is DONE!" when none was; a parse error changes no row |
| App.PrintedOrdinalNamesRow | src/main.rs:32-38 | the single-branch listing prints `n  content` for rank n, and `done n` typed from that text resolves to rank n of the same branch |
| App.AllBranchesOrdinalNamesRow | src/main.rs:13-31 | the ordinal printed for a row in the all-branches listing is its rank in its branch's list, and `done branch:ordinal` typed from it parses to that branch and rank, so it deletes exactly that row |
| App.OrdinalReshuffle | src/main.rs:152-160 | after adding "x" and "y" on one branch and finishing ordinal 1, the branch lists only "y", now at ordinal 1 |

## Left out

- The SQLite engine, the database file `.git/info/todo.sqlite` and storage faults. The only storage error modelled is "no such table", for statements run before the table exists.
- The `.flatten()` calls drop rows that fail to decode. The model assumes every row decodes. In particular, ids are unbounded integers, not the `i32` of `dao::Todo`.
- Dao.DatabaseAccess.CreateTodo: does not model the end of the AUTOINCREMENT id range, where SQLite refuses the insert.
- Dao.DatabaseAccess.DeleteTodo: compares `index + 1` with the ordinal as integers. The source casts a negative ordinal to `usize`, which could only match in a table with more than 2^64 − 2^31 rows.
- `git::get_current_branch` runs `git symbolic-ref` in a subprocess. The branch name is a parameter instead, and its failure path is not modelled.
- `std::env::args()` is replaced by the argument vector as a parameter.
- `main` and printing are not modelled. `execute` produces `Listing.Line` values, and `Listing.Render` gives the text `println!` writes for each. Errors are printed with exit status zero; that is process plumbing.
- The `error` module's `Display` and `From` impls are reduced to one `Errors.Error` datatype carrying the message.
- Concurrent invocations racing on the same database file are not modelled.
