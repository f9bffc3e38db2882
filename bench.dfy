/** The benchmark loop: for each budget in increasing order and each input
    file in the order given, skip the file when the run already solved it,
    otherwise run the time-limited command once and append one row with
    its outcome. */
module Bench {
  import opened RustTypes
  import opened Budget
  import opened Command
  import opened Attempts

  datatype ExitStatus = Exited(code: int) | Signalled(signal: int) {
    /** `ExitStatus::success`: the process exited with code zero. */
    predicate Success() {
      Exited? && code == 0
    }
  }

  /** What one run of `sh -c <command>` yields, with the wall-clock seconds
      the loop measured around it. */
  datatype Execution = Execution(status: ExitStatus, stdout: seq<Byte>, stderr: seq<Byte>, elapsedSeconds: U64)

  /** The shell, the external `timeout` utility and the clock: what running
      a command yields when it is started with `n` rows in the table. The
      row count stands for the moment of the run, so one command may give
      different outcomes on different attempts. */
  type Shell = (string, nat) -> Execution

  /** The row recorded for an attempt of `file` at budget `timeout`. */
  function AttemptRow(runId: I64, file: string, timeout: U64, x: Execution): Attempt {
    Attempt(runId, file, AsI64(timeout), x.status.Success(), AsI64(x.elapsedSeconds), x.stdout, x.stderr)
  }

  /** One step of the loop on the table `rows`: a solved file is skipped;
      otherwise the command is run and exactly one row is appended, whose
      success flag is the command's exit status, failure included. */
  function Visit(rows: seq<Attempt>, runId: I64, file: string, timeout: U64, template: string, shell: Shell): (r: seq<Attempt>)
    ensures r == rows <==> Solved(rows, runId, file)
    ensures |rows| <= |r| <= |rows| + 1 && r[..|rows|] == rows
    ensures |r| == |rows| + 1 ==>
      && r[|rows|].runId == runId && r[|rows|].inputFile == file
      && r[|rows|].timeoutSeconds == AsI64(timeout)
      && r[|rows|].success == shell(BuildCommand(timeout, file, template), |rows|).status.Success()
      && r[|rows|] == AttemptRow(runId, file, timeout, shell(BuildCommand(timeout, file, template), |rows|))
  {
    if Solved(rows, runId, file) then rows
    else rows + [AttemptRow(runId, file, timeout, shell(BuildCommand(timeout, file, template), |rows|))]
  }

  /** The inner loop: one step per file, in the order given, at one budget. */
  function VisitFiles(rows: seq<Attempt>, runId: I64, files: seq<string>, timeout: U64, template: string, shell: Shell): (r: seq<Attempt>)
    ensures |rows| <= |r| <= |rows| + |files| && r[..|rows|] == rows
    ensures forall j :: |rows| <= j < |r| ==>
      r[j].runId == runId && r[j].inputFile in files && r[j].timeoutSeconds == AsI64(timeout)
    decreases |files|
  {
    if files == [] then rows
    else
      var before := VisitFiles(rows, runId, files[..|files| - 1], timeout, template, shell);
      Visit(before, runId, files[|files| - 1], timeout, template, shell)
  }

  /** The outer loop: the inner loop once per budget, in the order given. */
  function VisitBudgets(rows: seq<Attempt>, runId: I64, files: seq<string>, budgets: seq<U64>, template: string, shell: Shell): (r: seq<Attempt>)
    ensures |rows| <= |r| && r[..|rows|] == rows
    ensures forall j :: |rows| <= j < |r| ==>
      r[j].runId == runId && r[j].inputFile in files
      && exists q :: 0 <= q < |budgets| && r[j].timeoutSeconds == AsI64(budgets[q])
    decreases |budgets|
  {
    if budgets == [] then rows
    else
      var before := VisitBudgets(rows, runId, files, budgets[..|budgets| - 1], template, shell);
      var last := budgets[|budgets| - 1];
      var r := VisitFiles(before, runId, files, last, template, shell);
      assert forall j :: |rows| <= j < |before| ==> r[j] == before[j];
      r
  }

  /** The two outcomes of `Visit`, for the loop's proof. */
  lemma VisitCases(rows: seq<Attempt>, runId: I64, file: string, timeout: U64, template: string, shell: Shell)
    ensures Solved(rows, runId, file) ==> Visit(rows, runId, file, timeout, template, shell) == rows
    ensures !Solved(rows, runId, file) ==>
      Visit(rows, runId, file, timeout, template, shell)
      == rows + [AttemptRow(runId, file, timeout, shell(BuildCommand(timeout, file, template), |rows|))]
  {
  }

  /** Running the inner loop over one more file is one more `Visit`. */
  lemma VisitFilesStep(rows: seq<Attempt>, runId: I64, files: seq<string>, f: nat, timeout: U64, template: string, shell: Shell)
    requires f < |files|
    ensures VisitFiles(rows, runId, files[..f + 1], timeout, template, shell)
         == Visit(VisitFiles(rows, runId, files[..f], timeout, template, shell), runId, files[f], timeout, template, shell)
  {
    assert files[..f + 1][..f] == files[..f];
  }

  /** Running the outer loop over one more budget is one more inner loop. */
  lemma VisitBudgetsStep(rows: seq<Attempt>, runId: I64, files: seq<string>, budgets: seq<U64>, b: nat, template: string, shell: Shell)
    requires b < |budgets|
    ensures VisitBudgets(rows, runId, files, budgets[..b + 1], template, shell)
         == VisitFiles(VisitBudgets(rows, runId, files, budgets[..b], template, shell), runId, files, budgets[b], template, shell)
  {
    assert budgets[..b + 1][..b] == budgets[..b];
  }

  /** `bench_loop`: the table afterwards is the table before with the rows
      of the whole schedule appended. */
  method BenchLoop(store: AttemptStore, runId: I64, files: seq<string>, template: string, cutoff: Option<U64>, shell: Shell)
    modifies store
    ensures store.rows == VisitBudgets(old(store.rows), runId, files, Budgets(cutoff), template, shell)
  {
    var budgets := Budgets(cutoff);
    for b := 0 to |budgets|
      invariant store.rows == VisitBudgets(old(store.rows), runId, files, budgets[..b], template, shell)
    {
      var timeout := budgets[b];
      ghost var before := store.rows;
      for f := 0 to |files|
        invariant store.rows == VisitFiles(before, runId, files[..f], timeout, template, shell)
      {
        var file := files[f];
        VisitFilesStep(before, runId, files, f, timeout, template, shell);
        VisitCases(store.rows, runId, file, timeout, template, shell);
        var solved := store.HasSuccessfulAttempt(runId, file);
        if solved {
          continue;
        }
        var out := shell(BuildCommand(timeout, file, template), |store.rows|);
        store.Insert(AttemptRow(runId, file, timeout, out));
      }
      assert files[..|files|] == files;
      VisitBudgetsStep(old(store.rows), runId, files, budgets, b, template, shell);
    }
    assert budgets[..|budgets|] == budgets;
  }
}
