/** The `attempts` table: one row per executed attempt, rows only ever
    appended. */
module Attempts {
  import opened RustTypes

  /** One row of the `attempts` table. */
  datatype Attempt = Attempt(
    runId: I64,
    inputFile: string,
    timeoutSeconds: I64,
    success: bool,
    timeUsedSeconds: I64,
    stdout: seq<Byte>,
    stderr: seq<Byte>)

  /** Whether the rows hold a successful attempt of `file` in run `runId`. */
  predicate Solved(rows: seq<Attempt>, runId: I64, file: string) {
    exists i :: 0 <= i < |rows| && rows[i].runId == runId && rows[i].inputFile == file && rows[i].success
  }

  /** Appending rows never un-solves a file. */
  lemma SolvedPersists(rows: seq<Attempt>, more: seq<Attempt>, runId: I64, file: string)
    requires Solved(rows, runId, file)
    ensures Solved(rows + more, runId, file)
  {
    var i :| 0 <= i < |rows| && rows[i].runId == runId && rows[i].inputFile == file && rows[i].success;
    assert (rows + more)[i] == rows[i];
  }

  /** Rows about other files do not change whether `file` is solved. */
  lemma SolvedIgnoresOtherFiles(rows: seq<Attempt>, more: seq<Attempt>, runId: I64, file: string)
    requires forall k :: 0 <= k < |more| ==> more[k].inputFile != file
    ensures Solved(rows + more, runId, file) <==> Solved(rows, runId, file)
  {
    if Solved(rows + more, runId, file) {
      var i :| 0 <= i < |rows + more| && (rows + more)[i].runId == runId
        && (rows + more)[i].inputFile == file && (rows + more)[i].success;
      assert rows[i] == (rows + more)[i];
    }
    if Solved(rows, runId, file) {
      SolvedPersists(rows, more, runId, file);
    }
  }

  /** The table as the loop sees it through its database pool. */
  class AttemptStore {
    /** The rows in insertion order. */
    var rows: seq<Attempt>

    constructor (initial: seq<Attempt>)
      ensures rows == initial
    {
      rows := initial;
    }

    /** The skip check: does run `runId` already hold a successful attempt
        of `file`? */
    method HasSuccessfulAttempt(runId: I64, file: string) returns (found: bool)
      ensures found <==> exists i :: 0 <= i < |rows| && rows[i].runId == runId
                                  && rows[i].inputFile == file && rows[i].success
    {
      found := Solved(rows, runId, file);
    }

    /** One committed insert: the new row goes after all existing rows,
        which stay as they were. */
    method Insert(row: Attempt)
      modifies this
      ensures rows == old(rows) + [row]
    {
      rows := rows + [row];
    }
  }
}
