/** `Command` and `Command::parse_from_args`: what one invocation asks for,
    decided from the argument vector (program name first) and the name of the
    checked-out branch. */
module Commands {
  import opened Errors
  import opened Strings
  import opened Decimal

  datatype Command =
    | List(branch: string, all: bool)
    | Todo(branch: string, content: string)
    | Done(branch: string, ordinal: int)
    | Help

  predicate IsAllBranchesFlag(arg: string)
  {
    arg == "-a" || arg == "--all" || arg == "--all-branches"
  }

  predicate IsDoneWord(arg: string)
  {
    arg == "done" || arg == "-"
  }

  predicate IsHelpFlag(arg: string)
  {
    arg == "-h" || arg == "--help"
  }

  const MissingDoneIndex: Error := Other("missing done index")

  /** A `done` whose ordinal text parsed to `parsed`, for `branch`: the parse
      error's message is the command's error. */
  function DoneOutcome(parsed: Parsed, branch: string): Result<Command>
  {
    match parsed
    case Invalid(kind) => Err(Other(Describe(kind)))
    case Value(n) => Ok(Done(branch, n))
  }

  /** The rules are tried in this order: no argument lists the current branch;
      a lone all-branches flag lists every branch; `done`/`-` deletes by
      ordinal, taken as `branch:ordinal` when the ordinal argument holds a
      colon; a help flag asks for help; anything else is the text of a new
      todo, the arguments joined by single spaces. */
  function ParseFromArgs(args: seq<string>, current: string): (r: Result<Command>)
    ensures r.Ok? && r.value.List? <==> |args| <= 1 || (|args| == 2 && IsAllBranchesFlag(args[1]))
    ensures r.Ok? && r.value.List? ==> r.value.branch == current && (r.value.all <==> |args| == 2)
    ensures r.Err? ==> |args| >= 2 && IsDoneWord(args[1])
    ensures |args| == 2 && IsDoneWord(args[1]) ==> r == Err(MissingDoneIndex)
    ensures r.Ok? && r.value.Done? ==> |args| >= 3 && IsDoneWord(args[1])
    ensures r.Ok? && r.value.Done? ==> I32Min <= r.value.ordinal <= I32Max
    ensures |args| >= 3 && IsDoneWord(args[1]) && ':' !in args[2] ==>
      r == DoneOutcome(ParseI32(args[2]), current)
    ensures |args| >= 3 && IsDoneWord(args[1]) && |Split(args[2], ':')| > 1 ==>
      r == DoneOutcome(ParseI32(Split(args[2], ':')[1]), Split(args[2], ':')[0])
    ensures r == Ok(Help) <==> |args| >= 2 && IsHelpFlag(args[1])
    ensures r.Ok? && r.value.Todo? <==>
      && |args| >= 2
      && !(|args| == 2 && IsAllBranchesFlag(args[1]))
      && !IsDoneWord(args[1])
      && !IsHelpFlag(args[1])
    ensures r.Ok? && r.value.Todo? ==> r.value.branch == current && r.value.content == Join(args[1..], " ")
  {
    if |args| <= 1 then Ok(List(current, false))
    else if |args| <= 2 && IsAllBranchesFlag(args[1]) then Ok(List(current, true))
    else if IsDoneWord(args[1]) then
      if |args| < 3 then Err(MissingDoneIndex)
      else
        SplitPieces(args[2], ':');
        var parts := Split(args[2], ':');
        var branch := if |parts| == 1 then current else parts[0];
        var index := if |parts| == 1 then args[2] else parts[1];
        DoneOutcome(ParseI32(index), branch)
    else if IsHelpFlag(args[1]) then Ok(Help)
    else Ok(Todo(current, Join(args[1..], " ")))
  }

  /** A printed number has no colon in it. */
  lemma FormatHasNoColon(n: int)
    ensures ':' !in FormatInt(n)
  {
    var s := FormatNat(if n < 0 then -n else n);
    assert forall i :: 0 <= i < |s| ==> s[i] != ':';
    if n < 0 {
      assert FormatInt(n) == "-" + s;
    }
  }

  /** `done <n>` with an ordinal as a listing prints it deletes rank `n` of the
      current branch. */
  lemma DoneOrdinal(program: string, word: string, n: int, current: string)
    requires IsDoneWord(word)
    requires I32Min <= n <= I32Max
    ensures ParseFromArgs([program, word, FormatInt(n)], current) == Ok(Done(current, n))
  {
    FormatHasNoColon(n);
    SplitNoSeparator(FormatInt(n), ':');
    ParseFormat(n);
  }

  /** `done <text>` with no colon in the text succeeds exactly when the text is
      an optional sign and digits whose value fits in 32 bits, and then
      addresses that number on the current branch. */
  lemma DoneAccepts(program: string, word: string, text: string, current: string)
    requires IsDoneWord(word)
    requires ':' !in text
    ensures var r := ParseFromArgs([program, word, text], current);
      var body := Unsigned(text);
      && (r.Ok? <==> body != [] && AllDigits(body) && ReadDigits(body, 0) <= Limit(Negative(text)))
      && (r.Ok? ==> r.value == Done(current, if Negative(text) then -(ReadDigits(body, 0) as int) else ReadDigits(body, 0)))
  {
    ParseI32Meaning(text);
  }

  /** `done <branch>:<text>` addresses branch `branch` when it holds no colon;
      the ordinal is read from `text` up to its next colon, if any. */
  lemma DoneWithBranch(program: string, word: string, branch: string, text: string, current: string)
    requires IsDoneWord(word)
    requires ':' !in branch
    ensures ParseFromArgs([program, word, branch + ":" + text], current)
         == DoneOutcome(ParseI32(Split(text, ':')[0]), branch)
  {
    SplitAtFirst(branch, ':', text);
  }

  /** `done <branch>:<n>` addresses rank `n` of another branch, as long as the
      branch name holds no colon. */
  lemma DoneOnBranch(program: string, word: string, branch: string, n: int, current: string)
    requires IsDoneWord(word)
    requires ':' !in branch
    requires I32Min <= n <= I32Max
    ensures ParseFromArgs([program, word, branch + ":" + FormatInt(n)], current) == Ok(Done(branch, n))
  {
    DoneWithBranch(program, word, branch, FormatInt(n), current);
    FormatHasNoColon(n);
    SplitNoSeparator(FormatInt(n), ':');
    ParseFormat(n);
  }

  /** An ordinal text that is not a sign followed by digits is refused before
      anything is deleted. The message is never the empty-string one (that is
      for an empty ordinal), and it is "invalid digit found in string" when the
      first character after the sign is no digit: digits read before a later
      non-digit can already overflow. */
  lemma DoneNotANumber(program: string, word: string, text: string, current: string)
    requires IsDoneWord(word)
    requires ':' !in text
    requires text != []
    requires !(Unsigned(text) != [] && AllDigits(Unsigned(text)))
    ensures var r := ParseFromArgs([program, word, text], current);
      && r.Err?
      && r != Err(Other(Describe(Empty)))
      && (Unsigned(text) == [] || !IsDigit(Unsigned(text)[0]) ==> r == Err(Other(Describe(InvalidDigit))))
  {
    ParseI32Meaning(text);
    if Unsigned(text) == [] || !IsDigit(Unsigned(text)[0]) {
      ParseLeadingNonDigit(text);
    }
    if Describe(ParseI32(text).kind) == Describe(Empty) {
      DescribeDistinct(ParseI32(text).kind, Empty);
    }
  }

  /** An empty ordinal, as in `done ""` or `done main:`, is refused with the
      empty-string message. */
  lemma DoneEmptyOrdinal(program: string, word: string, branch: string, current: string)
    requires IsDoneWord(word)
    requires ':' !in branch
    ensures ParseFromArgs([program, word, ""], current) == Err(Other(Describe(Empty)))
    ensures ParseFromArgs([program, word, branch + ":"], current) == Err(Other(Describe(Empty)))
  {
    DoneWithBranch(program, word, branch, "", current);
    assert branch + ":" + "" == branch + ":";
  }

  /** The text of a new todo splits back into the words it was given as, when
      no word holds a space itself. */
  lemma TodoWords(args: seq<string>, current: string)
    requires ParseFromArgs(args, current).Ok? && ParseFromArgs(args, current).value.Todo?
    requires forall i :: 1 <= i < |args| ==> ' ' !in args[i]
    ensures Split(ParseFromArgs(args, current).value.content, ' ') == args[1..]
  {
    var words := args[1..];
    forall i | 0 <= i < |words| ensures ' ' !in words[i] {
      assert words[i] == args[i + 1];
    }
    SplitJoin(words, ' ');
  }
}
