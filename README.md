# runbench: the escalating benchmark loop, in Dafny

runbench runs one shell command template over every input file of a
directory, again and again with a growing time limit. It records each
attempt in an SQLite table `attempts`. A file stops being tried once the
current run holds a successful attempt for it. This project models the
runner's core in `src/main.rs`:

- the budget sequence (lines 90-93): the powers 2^0 … 2^31, kept while they
  stay strictly below the optional final cutoff, followed by the cutoff
  itself;
- the skip-or-run loop `bench_loop` (lines 95-133): for each budget, and
  each file in listing order, it asks the table whether the run already
  solved the file; if not, it runs the command once and inserts one row;
- the command text built by `build_and_execute_cmd` (lines 141-143): every
  `@bench_file` (line 7) is replaced by the path with `str::replace`
  semantics, and the result is prefixed with `timeout <budget>s `.

Files:

- `rust_types.dfy`: `Option`, `u64`/`usize` and `i64` as bounded integers,
  and the `as i64` cast, which wraps around.
- `budget.dfy`: the budget sequence (`Budgets`) and its properties.
- `command.dfy`: `Replace`, the reference definitions `Split`/`Join`,
  decimal rendering, `BuildCommand`, and a parser that reads the command
  back.
- `attempts.dfy`: the `attempts` row, the "already solved" query, and the
  table as a class with an append-only `rows` field.
- `bench.dfy`: the loop, specified by three folds (`Visit` for one file,
  `VisitFiles` for one budget, `VisitBudgets` for the whole schedule) and
  implemented by the method `BenchLoop`. Its nested `for` loops are proved
  to leave the table equal to the fold.
- `bench_properties.dfy`: what the loop guarantees about the rows it
  appends.
- `example_run.dfy`: the runner's documented end-to-end scenario, worked
  through.

The shell, the external `timeout` utility and the clock are one oracle,
`Shell`. It maps a command string and the number of rows present when the
command starts to an exit status, the captured output and the elapsed
seconds. Because of the row count, the same command may behave differently
on different attempts.

The runner's documentation calls the cutoff a positive integer. The code
accepts any `usize`, including 0, and a cutoff of 0 gives the single budget
0 (`Budget.ExampleCutoffZero`); the model follows the code. The
documentation also calls the doubling sequence unbounded. The code stops
after 32 doublings (`(0..32)`), and the model follows the code.

## Model

| member | source | states |
|---|---|---|
| RustTypes.AsI64 | src/main.rs:113-115 | `as i64` keeps every value below 2^63 and makes every larger `u64` negative |
| RustTypes.AsI64Congruent | src/main.rs:115 | the cast is the identity modulo 2^64, so different budgets are recorded as different `timeout_seconds` |
| Budget.Pow2Fits | src/main.rs:90-91 | `2usize.pow(i)` for `i < 32` is at most 2^31, so it never overflows |
| Budget.BelowCutoff | src/main.rs:92 | the `take_while` test: every power is kept when there is no cutoff, and only powers strictly below the cutoff otherwise (no ensures; its meaning is stated by the `PowersFrom` and `Budgets` rows) |
| Budget.PowersFrom | src/main.rs:90-92 | `take_while` keeps the powers 2^i, 2^(i+1), … in order while they are below the cutoff and stops at the first one that is not |
| Budget.Budgets | src/main.rs:90-93 | the sequence the loop iterates: with no cutoff at most 32 budgets; with cutoff c the cutoff is the last budget; every other budget at position k is 2^k and passes the `take_while` test |
| Budget.BudgetsWithoutCutoff | src/main.rs:90-93 | with no cutoff the budgets are exactly 2^0 … 2^31 |
| Budget.BudgetsWithCutoff | src/main.rs:90-93 | with cutoff c the budgets are every power of two below c, in order, then c exactly once as the last budget |
| Budget.BudgetsStrictlyIncreasing | src/main.rs:90-93 | for every cutoff the budgets strictly increase, so no budget repeats |
| Budget.BudgetsBounded | src/main.rs:90-93 | every budget is at most 2^31 or equals the cutoff |
| Budget.ExampleNoCutoff | src/main.rs:90-93 | with no cutoff the sequence begins 1, 2, 4, 8 |
| Budget.ExampleCutoffTen | src/main.rs:90-93 | cutoff 10 gives 1, 2, 4, 8, 10 |
| Budget.ExampleCutoffFour | src/main.rs:90-93 | cutoff 4 gives 1, 2, 4: the cutoff is not repeated when it is a power of two |
| Budget.ExampleCutoffOne | src/main.rs:90-93 | cutoff 1 gives the single budget 1 |
| Budget.ExampleCutoffZero | src/main.rs:90-93 | cutoff 0 gives the single budget 0 |
| Command.Replace | src/main.rs:141 | `str::replace` with a non-empty pattern: a replacement as long as the pattern keeps the length, and a shorter one never lengthens the string; its full meaning is given by the lemmas below |
| Command.OccursAtShift | src/main.rs:141 | a match at position i ≥ 1 of a string is a match at i - 1 of its tail, and the reverse |
| Command.ReplaceWithoutOccurrence | src/main.rs:141 | a template without the placeholder is returned unchanged |
| Command.LeftmostAtIsFirst | src/main.rs:141 | the recursive leftmost-match predicate holds exactly at a match with no earlier match |
| Command.ReplaceAtLeftmost | src/main.rs:141 | replacement keeps the text before the leftmost match and substitutes the match; it resumes on the original text after the match, so inserted text is never rescanned |
| Command.ReplaceByItself | src/main.rs:141 | replacing the placeholder by itself leaves the template unchanged |
| Command.Split | src/main.rs:141 | the pieces between matches: at least one piece, and the first piece is a prefix of the string |
| Command.SplitJoin | src/main.rs:141 | joining the pieces with the pattern gives back the string |
| Command.SplitPiecesAreFree | src/main.rs:141 | no piece contains the pattern: every non-overlapping match was cut out |
| Command.ReplaceIsJoinOfSplit | src/main.rs:141 | replacing equals splitting at every match found left to right without overlap and joining with the replacement; for `@bench_file`, which cannot overlap itself, that is every occurrence |
| Command.Interpolate | src/main.rs:141 | the interpolated command is the template's pieces around each `@bench_file` match, joined by the path |
| Command.ExampleInterpolate | src/main.rs:141 | `cat @bench_file` with path `in.txt` becomes `cat in.txt` |
| Command.Decimal | src/main.rs:143 | `{timeout_seconds}` renders as a non-empty run of decimal digits with no leading zero, except for 0 itself |
| Command.DecimalRoundTrip | src/main.rs:143 | the rendered digits read back as the budget |
| Command.CommandRoundTrip | src/main.rs:143 | a `timeout <digits>s ` prefix reads back as the budget, and the rest as the wrapped command, whatever that command is |
| Command.BuildCommand | src/main.rs:141-143 | the `timeout <budget>s <command>` string over the interpolated template: the command string determines both the budget and the interpolated template |
| Command.ExampleBuildCommand | src/main.rs:141-143 | budget 5, path `in.txt`, template `cat @bench_file` give `timeout 5s cat in.txt` |
| Attempts.Solved | src/main.rs:97-101 | the `select exists` query: some row of this run and this file has `success` set (no ensures; its properties are the two rows below) |
| Attempts.SolvedPersists | src/main.rs:97-106 | once the table holds a success for a file in a run, later inserts never remove it |
| Attempts.SolvedIgnoresOtherFiles | src/main.rs:97-101 | rows about other files do not change whether a file is solved |
| Attempts.AttemptStore.constructor | src/main.rs:88 | the table the loop is handed starts with the given rows |
| Attempts.AttemptStore.HasSuccessfulAttempt | src/main.rs:97-104 | the skip query is true exactly when a row of this run and file has `success` set |
| Attempts.AttemptStore.Insert | src/main.rs:120-131 | one committed insert appends exactly one row after all existing rows |
| Bench.AttemptRow | src/main.rs:111-126 | the inserted row: the run, the file, the budget cast to `i64`, the exit status's success, the elapsed seconds cast to `i64`, and the captured stdout and stderr (no ensures; it names the values bound at those lines) |
| Bench.Visit | src/main.rs:96-131 | a solved file leaves the table unchanged; otherwise exactly one row is appended, carrying the run, the file, the cast budget and the command's exit success (failure included), and equal in every field, output and elapsed time included, to the row the command's outcome yields |
| Bench.VisitFiles | src/main.rs:96-132 | one budget appends at most one row per listed file; it keeps the earlier rows, and every new row is for a listed file at that budget |
| Bench.VisitBudgets | src/main.rs:95-133 | the whole schedule keeps the earlier rows, and every new row is for a listed file at one of the budgets |
| Bench.BenchLoop | src/main.rs:95-133 | the nested loops leave the table equal to the old table followed by the rows of the whole schedule |
| BenchProperties.VisitKeepsNoAttemptAfterSuccess | src/main.rs:97-109 | one step never appends an attempt after a success of the same run and file |
| BenchProperties.VisitFilesKeepsNoAttemptAfterSuccess | src/main.rs:96-132 | the same for one pass over the files |
| BenchProperties.NoAttemptAfterSuccessInLoop | src/main.rs:95-133 | for any budgets, no appended row follows a success of the same run and file, so each file gains at most one success |
| BenchProperties.Timeouts | src/main.rs:115 | the budgets as the `i64` values the rows record, one per budget |
| BenchProperties.VisitHistory | src/main.rs:96-131 | one step adds the budget to a file's history exactly when it visits that file and the file was unsolved |
| BenchProperties.VisitFilesHistory | src/main.rs:96-132 | at one budget, a listed unsolved file is tried exactly once, and no unlisted file is tried |
| BenchProperties.HistoryStep | src/main.rs:95-132 | one more budget extends a file's history by that budget exactly when the file was still unsolved |
| BenchProperties.VisitBudgetsHistory | src/main.rs:95-133 | a listed file is tried at a prefix of the budgets; at all of them if it ends unsolved (a failure never stops escalation); at none if it was solved before the loop |
| BenchProperties.BudgetsTriedIncrease | src/main.rs:90-133 | with a cutoff below 2^63, the budgets a file is tried at strictly increase |
| BenchProperties.VisitFilesOrder | src/main.rs:96-132 | at one budget the appended rows follow the order of the listing |
| BenchProperties.VisitBudgetsOrder | src/main.rs:95-133 | with increasing budgets below 2^63, the appended rows are ordered by budget and, within a budget, by listing position |
| BenchProperties.LoopIsBudgetMajor | src/main.rs:90-133 | the loop's own rows are in that budget-major order when the cutoff is below 2^63 |
| ExampleRun.InterpolateTest | src/main.rs:141 | `test @bench_file` becomes `test ` followed by the path |
| ExampleRun.TestShellSucceeds | src/main.rs:112-116 | in the scenario's shell, only the command for `f1` exits successfully, whatever the budget |
| ExampleRun.FirstBudget | src/main.rs:96-131 | at budget 1 both files are run: `f1` succeeds and `f2` fails |
| ExampleRun.LaterBudget | src/main.rs:96-131 | at a later budget `f1` is skipped as solved, and `f2` is run again and fails |
| ExampleRun.WholeRun | src/main.rs:90-133 | with cutoff 4 the table gains `f1`@1 (success), then `f2`@1, `f2`@2 and `f2`@4 (failures), and nothing else |

## Left out

- Command-line parsing, `.env` loading and the connection pool
  (src/main.rs:9-55): these are configuration and I/O.
- Registering the run and reading its id (src/main.rs:57-65): `run_id` is a
  parameter of the loop.
- Reading the directory (src/main.rs:67-69): the listing is an input. The order and history
  lemmas require its paths to be distinct, as a directory listing's are.
- Spawning `sh -c` and the external `timeout` utility (src/main.rs:147-151):
  both are replaced by the `Shell` oracle. The model does not capture what
  `timeout` does to the process; it records only the exit status the
  oracle reports.
- `Instant::now` and `elapsed` (src/main.rs:111-113): the oracle supplies
  the elapsed seconds.
- The asynchronous runtime and the transaction (src/main.rs:120-131): each
  insert is modelled as one atomic append. The loop runs alone, so no
  other writer is modelled.
- The `expect` panics on store failures and the `println!` progress output:
  the model has no failing store and no output.
- Command.Replace: modelled for a non-empty pattern only. The placeholder
  is the fixed non-empty token `@bench_file`, so the empty-pattern case of
  `str::replace` never arises.
- BenchProperties.BudgetsTriedIncrease: proved only for a cutoff below
  2^63. A larger cutoff is recorded as a negative `i64`, so the recorded
  budgets are not increasing then.
- BenchProperties.LoopIsBudgetMajor: the same restriction to a cutoff below
  2^63, for the same reason.
- `usize` is taken to be 64 bits wide, as on the targets the runner is
  built for.
