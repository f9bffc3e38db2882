/** What the benchmark loop guarantees about the table: no attempt after a
    success, which budgets each file is tried at, and the budget-major
    order of the appended rows. */
module BenchProperties {
  import opened RustTypes
  import opened Budget
  import opened Attempts
  import opened Command
  import opened Bench

  /** Among the rows from index `from` on, none follows a successful row of
      the same run and file. */
  predicate NoAttemptAfterSuccess(rows: seq<Attempt>, from: nat) {
    forall i, j ::
      (0 <= i < j < |rows| && from <= j && rows[i].runId == rows[j].runId
       && rows[i].inputFile == rows[j].inputFile) ==> !rows[i].success
  }

  lemma VisitKeepsNoAttemptAfterSuccess(rows: seq<Attempt>, from: nat, runId: I64, file: string,
                                        timeout: U64, template: string, shell: Shell)
    requires from <= |rows| && NoAttemptAfterSuccess(rows, from)
    ensures NoAttemptAfterSuccess(Visit(rows, runId, file, timeout, template, shell), from)
  {
  }

  lemma {:induction false} VisitFilesKeepsNoAttemptAfterSuccess(rows: seq<Attempt>, from: nat, runId: I64,
                                                               files: seq<string>, timeout: U64, template: string, shell: Shell)
    requires from <= |rows| && NoAttemptAfterSuccess(rows, from)
    ensures NoAttemptAfterSuccess(VisitFiles(rows, runId, files, timeout, template, shell), from)
    decreases |files|
  {
    if files != [] {
      var init := files[..|files| - 1];
      VisitFilesKeepsNoAttemptAfterSuccess(rows, from, runId, init, timeout, template, shell);
      var before := VisitFiles(rows, runId, init, timeout, template, shell);
      VisitKeepsNoAttemptAfterSuccess(before, from, runId, files[|files| - 1], timeout, template, shell);
    }
  }

  /** The loop never runs a file again once the run holds a success for it,
      whatever budgets it is given: among the rows it appends, a successful
      row is the last row of its file, so each file gains at most one
      success. */
  lemma {:induction false} NoAttemptAfterSuccessInLoop(rows: seq<Attempt>, runId: I64, files: seq<string>,
                                                      budgets: seq<U64>, template: string, shell: Shell)
    ensures NoAttemptAfterSuccess(VisitBudgets(rows, runId, files, budgets, template, shell), |rows|)
    decreases |budgets|
  {
    if budgets != [] {
      var init := budgets[..|budgets| - 1];
      NoAttemptAfterSuccessInLoop(rows, runId, files, init, template, shell);
      var before := VisitBudgets(rows, runId, files, init, template, shell);
      VisitFilesKeepsNoAttemptAfterSuccess(before, |rows|, runId, files, budgets[|budgets| - 1], template, shell);
    }
  }

  /** The budgets at which the rows tried `file`, in row order. */
  function TimeoutsTried(rows: seq<Attempt>, file: string): seq<I64>
    decreases |rows|
  {
    if rows == [] then []
    else
      TimeoutsTried(rows[..|rows| - 1], file)
      + if rows[|rows| - 1].inputFile == file then [rows[|rows| - 1].timeoutSeconds] else []
  }

  lemma {:induction false} TimeoutsTriedConcat(a: seq<Attempt>, b: seq<Attempt>, file: string)
    ensures TimeoutsTried(a + b, file) == TimeoutsTried(a, file) + TimeoutsTried(b, file)
    decreases |b|
  {
    if b == [] {
      assert a + b == a;
    } else {
      TimeoutsTriedConcat(a, b[..|b| - 1], file);
      assert (a + b)[..|a + b| - 1] == a + b[..|b| - 1];
    }
  }

  lemma TimeoutsTriedOne(a: Attempt, file: string)
    ensures TimeoutsTried([a], file) == if a.inputFile == file then [a.timeoutSeconds] else []
  {
    assert [a][..0] == [];
  }

  /** The budgets as the `i64` values the rows record. */
  function Timeouts(budgets: seq<U64>): (ts: seq<I64>)
    ensures |ts| == |budgets|
    ensures forall k :: 0 <= k < |ts| ==> ts[k] == AsI64(budgets[k])
    decreases |budgets|
  {
    if budgets == [] then []
    else Timeouts(budgets[..|budgets| - 1]) + [AsI64(budgets[|budgets| - 1])]
  }

  /** The paths of a directory listing are pairwise different. */
  predicate Distinct(files: seq<string>) {
    forall i, j :: 0 <= i < j < |files| ==> files[i] != files[j]
  }

  lemma DropAppend(before: seq<Attempt>, more: seq<Attempt>, k: nat)
    requires k <= |before|
    ensures (before + more)[k..] == before[k..] + more
  {
  }

  /** One `Visit` extends the history of `file` by the budget exactly when
      it visits that file and the file was unsolved. */
  lemma VisitHistory(rows: seq<Attempt>, before: seq<Attempt>, runId: I64, last: string,
                     timeout: U64, template: string, shell: Shell, file: string)
    requires |rows| <= |before|
    ensures TimeoutsTried(Visit(before, runId, last, timeout, template, shell)[|rows|..], file)
         == TimeoutsTried(before[|rows|..], file)
            + if last == file && !Solved(before, runId, last) then [AsI64(timeout)] else []
  {
    VisitCases(before, runId, last, timeout, template, shell);
    var more: seq<Attempt> := if Solved(before, runId, last) then []
      else [AttemptRow(runId, last, timeout, shell(BuildCommand(timeout, last, template), |before|))];
    assert Visit(before, runId, last, timeout, template, shell) == before + more;
    DropAppend(before, more, |rows|);
    TimeoutsTriedConcat(before[|rows|..], more, file);
    if more != [] {
      TimeoutsTriedOne(more[0], file);
    } else {
      assert TimeoutsTried(more, file) == [];
    }
  }

  /** Rows appended for other files leave a file's solved status alone. */
  lemma SolvedAfterOtherFiles(rows: seq<Attempt>, before: seq<Attempt>, runId: I64, files: seq<string>,
                              timeout: U64, template: string, shell: Shell, file: string)
    requires file !in files
    requires before == VisitFiles(rows, runId, files, timeout, template, shell)
    ensures Solved(before, runId, file) <==> Solved(rows, runId, file)
  {
    assert before == rows + before[|rows|..];
    SolvedIgnoresOtherFiles(rows, before[|rows|..], runId, file);
  }

  /** At one budget the loop tries each listed, unsolved file exactly once,
      and no other file. */
  lemma {:induction false} VisitFilesHistory(rows: seq<Attempt>, runId: I64, files: seq<string>,
                                            timeout: U64, template: string, shell: Shell, file: string)
    requires Distinct(files)
    ensures var r := VisitFiles(rows, runId, files, timeout, template, shell);
      TimeoutsTried(r[|rows|..], file)
        == if file in files && !Solved(rows, runId, file) then [AsI64(timeout)] else []
    decreases |files|
  {
    if files == [] {
      assert rows[|rows|..] == [];
    } else {
      var init := files[..|files| - 1];
      var last := files[|files| - 1];
      assert files == init + [last];
      var before := VisitFiles(rows, runId, init, timeout, template, shell);
      VisitFilesHistory(rows, runId, init, timeout, template, shell, file);
      VisitHistory(rows, before, runId, last, timeout, template, shell, file);
      if file == last {
        assert file !in init;
        SolvedAfterOtherFiles(rows, before, runId, init, timeout, template, shell, file);
      }
      FilesHistoryExtend(TimeoutsTried(before[|rows|..], file),
                         TimeoutsTried(VisitFiles(rows, runId, files, timeout, template, shell)[|rows|..], file),
                         AsI64(timeout), file in init, file == last, file in files,
                         Solved(rows, runId, file), Solved(before, runId, last));
    }
  }

  lemma FilesHistoryExtend(earlier: seq<I64>, tried: seq<I64>, t: I64, inInit: bool, isLast: bool, inFiles: bool,
                           solvedAtStart: bool, solvedBefore: bool)
    requires earlier == if inInit && !solvedAtStart then [t] else []
    requires tried == earlier + if isLast && !solvedBefore then [t] else []
    requires isLast ==> !inInit && solvedBefore == solvedAtStart
    requires inFiles <==> inInit || isLast
    ensures tried == if inFiles && !solvedAtStart then [t] else []
  {
  }

  /** Which budgets the loop tries a listed file at: a prefix of the budget
      sequence, all of it when the file stays unsolved (a failing command
      never stops the escalation), and none of it when the run had already
      solved the file before the loop started. */
  lemma {:induction false} VisitBudgetsHistory(rows: seq<Attempt>, runId: I64, files: seq<string>,
                                              budgets: seq<U64>, template: string, shell: Shell, file: string)
    requires Distinct(files) && file in files
    ensures var r := VisitBudgets(rows, runId, files, budgets, template, shell);
      var tried := TimeoutsTried(r[|rows|..], file);
      && tried <= Timeouts(budgets)
      && (!Solved(r, runId, file) ==> tried == Timeouts(budgets))
      && (Solved(rows, runId, file) ==> tried == [])
    decreases |budgets|
  {
    var r := VisitBudgets(rows, runId, files, budgets, template, shell);
    if budgets == [] {
      assert r[|rows|..] == [];
    } else {
      var init := budgets[..|budgets| - 1];
      var last := budgets[|budgets| - 1];
      var before := VisitBudgets(rows, runId, files, init, template, shell);
      assert r == VisitFiles(before, runId, files, last, template, shell);
      VisitBudgetsHistory(rows, runId, files, init, template, shell, file);
      HistoryStep(rows, before, r, runId, files, last, template, shell, file);
      HistoryExtend(TimeoutsTried(before[|rows|..], file), TimeoutsTried(r[|rows|..], file),
                    Timeouts(init), Timeouts(budgets), AsI64(last),
                    Solved(rows, runId, file), Solved(before, runId, file), Solved(r, runId, file));
    }
  }

  lemma HistoryExtend(earlier: seq<I64>, tried: seq<I64>, prev: seq<I64>, next: seq<I64>, last: I64,
                      solvedAtStart: bool, solvedBefore: bool, solvedAfter: bool)
    requires earlier <= prev && (!solvedBefore ==> earlier == prev) && (solvedAtStart ==> earlier == [])
    requires tried == earlier + (if solvedBefore then [] else [last]) && next == prev + [last]
    requires (solvedAtStart ==> solvedBefore) && (solvedBefore ==> solvedAfter)
    ensures tried <= next && (!solvedAfter ==> tried == next) && (solvedAtStart ==> tried == [])
  {
  }

  /** One more budget extends the history of `file` by that budget exactly
      when the file was still unsolved. */
  lemma HistoryStep(rows: seq<Attempt>, before: seq<Attempt>, r: seq<Attempt>, runId: I64, files: seq<string>,
                    last: U64, template: string, shell: Shell, file: string)
    requires Distinct(files) && file in files
    requires |rows| <= |before| && before[..|rows|] == rows
    requires r == VisitFiles(before, runId, files, last, template, shell)
    ensures TimeoutsTried(r[|rows|..], file)
      == TimeoutsTried(before[|rows|..], file) + if Solved(before, runId, file) then [] else [AsI64(last)]
    ensures Solved(rows, runId, file) ==> Solved(before, runId, file)
    ensures Solved(before, runId, file) ==> Solved(r, runId, file)
  {
    VisitFilesHistory(before, runId, files, last, template, shell, file);
    ExtendsTwice(rows, before, r);
    TimeoutsTriedConcat(before[|rows|..], r[|before|..], file);
    if Solved(before, runId, file) {
      SolvedPersists(before, r[|before|..], runId, file);
    }
    if Solved(rows, runId, file) {
      SolvedPersists(rows, before[|rows|..], runId, file);
    }
  }

  /** `rows` is a prefix of `before`, which is a prefix of `r`. */
  lemma ExtendsTwice(rows: seq<Attempt>, before: seq<Attempt>, r: seq<Attempt>)
    requires |rows| <= |before| <= |r|
    requires before[..|rows|] == rows && r[..|before|] == before
    ensures before == rows + before[|rows|..]
    ensures r == before + r[|before|..]
    ensures r[|rows|..] == before[|rows|..] + r[|before|..]
  {
    assert r[|rows|..] == r[|rows|..|before|] + r[|before|..];
    assert r[|rows|..|before|] == before[|rows|..];
  }

  /** Budgets below 2^63 survive the cast unchanged, so their order does. */
  lemma TimeoutsIncreasing(budgets: seq<U64>)
    requires StrictlyIncreasing(budgets)
    requires forall q :: 0 <= q < |budgets| ==> budgets[q] < TWO_TO_THE_63
    ensures StrictlyIncreasing(Timeouts(budgets))
  {
    var ts := Timeouts(budgets);
    assert forall k :: 0 <= k < |ts| ==> ts[k] == budgets[k];
  }

  lemma PrefixIncreasing(a: seq<int>, b: seq<int>)
    requires a <= b && StrictlyIncreasing(b)
    ensures StrictlyIncreasing(a)
  {
    assert forall k :: 0 <= k < |a| ==> a[k] == b[k];
  }

  /** The loop's own budgets lie below 2^63 when the cutoff does. */
  lemma BudgetsBelowSignBit(cutoff: Option<U64>)
    requires cutoff.None? || cutoff.value < TWO_TO_THE_63
    ensures forall q :: 0 <= q < |Budgets(cutoff)| ==> Budgets(cutoff)[q] < TWO_TO_THE_63
  {
    var budgets := Budgets(cutoff);
    BudgetsBounded(cutoff);
    forall q | 0 <= q < |budgets|
      ensures budgets[q] < TWO_TO_THE_63
    {
      assert budgets[q] in budgets;
    }
  }

  /** For the loop's own budgets, with the cutoff below 2^63 (so the
      `as i64` cast keeps every budget), the budgets a file is tried at
      strictly increase: no budget is tried twice for the same file. */
  lemma BudgetsTriedIncrease(rows: seq<Attempt>, runId: I64, files: seq<string>, cutoff: Option<U64>,
                             template: string, shell: Shell, file: string)
    requires Distinct(files) && file in files
    requires cutoff.None? || cutoff.value < TWO_TO_THE_63
    ensures var r := VisitBudgets(rows, runId, files, Budgets(cutoff), template, shell);
      StrictlyIncreasing(TimeoutsTried(r[|rows|..], file))
  {
    var budgets := Budgets(cutoff);
    BudgetsStrictlyIncreasing(cutoff);
    BudgetsBelowSignBit(cutoff);
    TimeoutsIncreasing(budgets);
    VisitBudgetsHistory(rows, runId, files, budgets, template, shell, file);
    var r := VisitBudgets(rows, runId, files, budgets, template, shell);
    PrefixIncreasing(TimeoutsTried(r[|rows|..], file), Timeouts(budgets));
  }

  /** Position of `file` in the listing; the length of the listing when it
      is absent. */
  function Rank(files: seq<string>, file: string): (k: nat)
    ensures k <= |files|
    ensures k < |files| ==> files[k] == file
    ensures forall i :: 0 <= i < k ==> files[i] != file
    decreases |files|
  {
    if files == [] || files[0] == file then 0 else 1 + Rank(files[1..], file)
  }

  /** Rows from index `from` on are in budget-major order: by budget, and
      within a budget by position in the listing. */
  predicate BudgetMajor(rows: seq<Attempt>, from: nat, files: seq<string>) {
    forall j, k :: from <= j < k < |rows| ==>
      || rows[j].timeoutSeconds < rows[k].timeoutSeconds
      || (rows[j].timeoutSeconds == rows[k].timeoutSeconds
          && Rank(files, rows[j].inputFile) < Rank(files, rows[k].inputFile))
  }

  /** Rows from index `from` on are in the order of the listing, and come
      from its first `n` entries. */
  predicate ListingOrder(rows: seq<Attempt>, from: nat, files: seq<string>, n: nat) {
    && (forall j :: from <= j < |rows| ==> Rank(files, rows[j].inputFile) < n)
    && (forall j, k :: from <= j < k < |rows| ==> Rank(files, rows[j].inputFile) < Rank(files, rows[k].inputFile))
  }

  /** Appending at most one row of the listing's entry `n - 1` keeps the
      listing order and extends it to the first `n` entries. */
  lemma ListingOrderExtend(before: seq<Attempt>, more: seq<Attempt>, from: nat, files: seq<string>, n: nat)
    requires 0 < n && from <= |before| && |more| <= 1
    requires ListingOrder(before, from, files, n - 1)
    requires forall j :: 0 <= j < |more| ==> Rank(files, more[j].inputFile) == n - 1
    ensures ListingOrder(before + more, from, files, n)
  {
    var r := before + more;
    forall j, k | from <= j < k < |r|
      ensures Rank(files, r[j].inputFile) < Rank(files, r[k].inputFile)
    {
      if k >= |before| {
        assert r[k] == more[k - |before|];
      }
    }
  }

  /** In a listing of distinct paths, entry `i` has position `i`. */
  lemma RankOfEntry(files: seq<string>, i: nat)
    requires Distinct(files) && i < |files|
    ensures Rank(files, files[i]) == i
  {
  }

  /** At one budget the rows follow the order of the listing. */
  lemma {:induction false} VisitFilesOrder(rows: seq<Attempt>, runId: I64, files: seq<string>, n: nat,
                                          timeout: U64, template: string, shell: Shell)
    requires Distinct(files) && n <= |files|
    ensures ListingOrder(VisitFiles(rows, runId, files[..n], timeout, template, shell), |rows|, files, n)
    decreases n
  {
    if n == 0 {
      assert files[..0] == [];
    } else {
      var file := files[n - 1];
      VisitFilesOrder(rows, runId, files, n - 1, timeout, template, shell);
      VisitFilesStep(rows, runId, files, n - 1, timeout, template, shell);
      var before := VisitFiles(rows, runId, files[..n - 1], timeout, template, shell);
      VisitCases(before, runId, file, timeout, template, shell);
      RankOfEntry(files, n - 1);
      var more: seq<Attempt> := if Solved(before, runId, file) then []
        else [AttemptRow(runId, file, timeout, shell(BuildCommand(timeout, file, template), |before|))];
      assert Visit(before, runId, file, timeout, template, shell) == before + more;
      ListingOrderExtend(before, more, |rows|, files, n);
    }
  }

  /** Given strictly increasing budgets below 2^63, the loop appends its
      rows in budget-major order, every row at most the last budget. */
  lemma {:induction false} VisitBudgetsOrder(rows: seq<Attempt>, runId: I64, files: seq<string>,
                                            budgets: seq<U64>, template: string, shell: Shell)
    requires Distinct(files) && StrictlyIncreasing(budgets)
    requires forall q :: 0 <= q < |budgets| ==> budgets[q] < TWO_TO_THE_63
    ensures var r := VisitBudgets(rows, runId, files, budgets, template, shell);
      && (|budgets| > 0 ==> forall j :: |rows| <= j < |r| ==> r[j].timeoutSeconds <= budgets[|budgets| - 1])
      && BudgetMajor(r, |rows|, files)
    decreases |budgets|
  {
    if budgets != [] {
      var init := budgets[..|budgets| - 1];
      var last := budgets[|budgets| - 1];
      var before := VisitBudgets(rows, runId, files, init, template, shell);
      var r := VisitFiles(before, runId, files, last, template, shell);
      assert r == VisitBudgets(rows, runId, files, budgets, template, shell);
      VisitBudgetsOrder(rows, runId, files, init, template, shell);
      assert files[..|files|] == files;
      VisitFilesOrder(before, runId, files, |files|, last, template, shell);
      assert ListingOrder(r, |before|, files, |files|);
      forall j | |rows| <= j < |before|
        ensures r[j].timeoutSeconds < last
      {
        assert r[j] == before[j];
      }
      assert AsI64(last) == last;
      forall j, k | |rows| <= j < k < |r|
        ensures || r[j].timeoutSeconds < r[k].timeoutSeconds
                || (r[j].timeoutSeconds == r[k].timeoutSeconds
                    && Rank(files, r[j].inputFile) < Rank(files, r[k].inputFile))
      {
        if k < |before| {
          assert r[j] == before[j] && r[k] == before[k];
        } else if j < |before| {
          assert r[j].timeoutSeconds < last == r[k].timeoutSeconds;
        } else {
          assert r[j].timeoutSeconds == r[k].timeoutSeconds;
        }
      }
    }
  }

  /** The loop's own rows are in budget-major order when the cutoff is
      below 2^63. */
  lemma LoopIsBudgetMajor(rows: seq<Attempt>, runId: I64, files: seq<string>, cutoff: Option<U64>,
                          template: string, shell: Shell)
    requires Distinct(files)
    requires cutoff.None? || cutoff.value < TWO_TO_THE_63
    ensures BudgetMajor(VisitBudgets(rows, runId, files, Budgets(cutoff), template, shell), |rows|, files)
  {
    BudgetsStrictlyIncreasing(cutoff);
    BudgetsBelowSignBit(cutoff);
    VisitBudgetsOrder(rows, runId, files, Budgets(cutoff), template, shell);
  }
}
