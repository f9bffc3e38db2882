/** The end-to-end scenario of the runner worked through: files `f1` and
    `f2`, template `test @bench_file`, cutoff 4 (so the budgets 1, 2 and 4),
    and a shell in which `test f1` succeeds and `test f2` fails. */
module ExampleRun {
  import opened RustTypes
  import opened Budget
  import opened Command
  import opened Attempts
  import opened Bench

  const TEMPLATE: string := "test @bench_file"
  const RUN: I64 := 7

  /** A shell that unwraps `timeout <n>s <command>` and succeeds exactly
      when the command is `test f1`. */
  function TestShell(cmd: string, n: nat): Execution {
    var ok := match ParseTimeoutCommand(cmd)
      case Some((_, body)) => body == Interpolate(TEMPLATE, "f1")
      case None => false;
    Execution(if ok then Exited(0) else Exited(1), [], [], 0)
  }

  /** The template puts the path after `test `. */
  lemma InterpolateTest(file: string)
    ensures Interpolate(TEMPLATE, file) == "test " + file
  {
    var t := TEMPLATE;
    assert t == "test " + FILE_PLACEHOLDER + [];
    assert OccursAt(t, FILE_PLACEHOLDER, 5);
    forall j: nat | j < 5
      ensures !OccursAt(t, FILE_PLACEHOLDER, j)
    {
      assert t[j] != FILE_PLACEHOLDER[0];
    }
    LeftmostAtIsFirst(t, FILE_PLACEHOLDER, 5);
    ReplaceAtLeftmost("test ", FILE_PLACEHOLDER, [], file);
    assert "test " + file + [] == "test " + file;
  }

  /** Whatever the budget and the moment, only the command for `f1`
      succeeds. */
  lemma TestShellSucceeds(timeout: U64, file: string, n: nat)
    ensures TestShell(BuildCommand(timeout, file, TEMPLATE), n).status.Success() <==> file == "f1"
  {
    InterpolateTest(file);
    InterpolateTest("f1");
    if "test " + file == "test " + "f1" {
      assert file == ("test " + file)[5..];
    }
  }

  /** The row recorded for an attempt of `file` at budget `t`. */
  function Row(file: string, t: I64): Attempt {
    Attempt(RUN, file, t, file == "f1", 0, [], [])
  }

  lemma RowOfAttempt(file: string, t: U64, n: nat)
    requires t < TWO_TO_THE_63
    ensures AttemptRow(RUN, file, t, TestShell(BuildCommand(t, file, TEMPLATE), n)) == Row(file, t)
  {
    TestShellSucceeds(t, file, n);
  }

  lemma FirstBudget()
    ensures VisitFiles([], RUN, ["f1", "f2"], 1, TEMPLATE, TestShell) == [Row("f1", 1), Row("f2", 1)]
  {
    assert ["f1", "f2"][..1] == ["f1"];
    assert ["f1"][..0] == [];
    VisitCases([], RUN, "f1", 1, TEMPLATE, TestShell);
    RowOfAttempt("f1", 1, 0);
    VisitCases([Row("f1", 1)], RUN, "f2", 1, TEMPLATE, TestShell);
    RowOfAttempt("f2", 1, 1);
    assert !Solved([Row("f1", 1)], RUN, "f2");
  }

  /** A later budget: `f1` is skipped as solved, `f2` is run and fails. */
  lemma LaterBudget(rows: seq<Attempt>, t: U64)
    requires 1 < t < TWO_TO_THE_63
    requires |rows| >= 1 && rows[0] == Row("f1", 1)
    requires forall k :: 1 <= k < |rows| ==> rows[k].inputFile == "f2" && !rows[k].success
    ensures VisitFiles(rows, RUN, ["f1", "f2"], t, TEMPLATE, TestShell) == rows + [Row("f2", t)]
  {
    assert ["f1", "f2"][..1] == ["f1"];
    assert ["f1"][..0] == [];
    VisitCases(rows, RUN, "f1", t, TEMPLATE, TestShell);
    assert Solved(rows, RUN, "f1");
    VisitCases(rows, RUN, "f2", t, TEMPLATE, TestShell);
    assert !Solved(rows, RUN, "f2");
    RowOfAttempt("f2", t, |rows|);
  }

  lemma SecondBudget()
    ensures VisitFiles([Row("f1", 1), Row("f2", 1)], RUN, ["f1", "f2"], 2, TEMPLATE, TestShell)
         == [Row("f1", 1), Row("f2", 1), Row("f2", 2)]
  {
    LaterBudget([Row("f1", 1), Row("f2", 1)], 2);
  }

  lemma ThirdBudget()
    ensures VisitFiles([Row("f1", 1), Row("f2", 1), Row("f2", 2)], RUN, ["f1", "f2"], 4, TEMPLATE, TestShell)
         == [Row("f1", 1), Row("f2", 1), Row("f2", 2), Row("f2", 4)]
  {
    LaterBudget([Row("f1", 1), Row("f2", 1), Row("f2", 2)], 4);
  }

  /** `f1` is solved at budget 1 and never run again; `f2` keeps failing
      and is run at every budget, the cutoff included. */
  lemma WholeRun()
    ensures VisitBudgets([], RUN, ["f1", "f2"], Budgets(Some(4)), TEMPLATE, TestShell)
         == [Row("f1", 1), Row("f2", 1), Row("f2", 2), Row("f2", 4)]
  {
    var files := ["f1", "f2"];
    var budgets: seq<U64> := [1, 2, 4];
    ExampleCutoffFour();
    assert budgets[..0] == [] && budgets[..3] == budgets;
    VisitBudgetsStep([], RUN, files, budgets, 0, TEMPLATE, TestShell);
    VisitBudgetsStep([], RUN, files, budgets, 1, TEMPLATE, TestShell);
    VisitBudgetsStep([], RUN, files, budgets, 2, TEMPLATE, TestShell);
    FirstBudget();
    SecondBudget();
    ThirdBudget();
  }
}
