/**
 The script's `__main__` block: apply the notebook fix to each path of a
 list in order, catching any exception per notebook so that one failure
 does not stop the others. Each notebook is processed against the files
 the earlier ones left behind.
 */
module BatchDriver {
  import opened NotebookFix

  /** The hard-coded target list of the script. */
  const Targets: seq<string> := ["Model_Pruning.ipynb", "C4AIScholarsChallenge_2022.ipynb"]

  /** What the console shows for one notebook: its path and how it ended. */
  datatype Report = Report(path: string, outcome: Outcome)

  datatype BatchRun = BatchRun(reports: seq<Report>, after: FileSystem)

  /** Reference definition of the loop: process the head, then the rest on
      the resulting files. Every path gets exactly one report, whatever the
      earlier outcomes were. */
  function Batch(fs: FileSystem, paths: seq<string>): (b: BatchRun)
    ensures |b.reports| == |paths|
    ensures b.after.unwritable == fs.unwritable
    decreases |paths|
  {
    if |paths| == 0 then BatchRun([], fs)
    else
      var run := FixNotebook(fs, paths[0]);
      var tail := Batch(run.after, paths[1..]);
      BatchRun([Report(paths[0], run.outcome)] + tail.reports, tail.after)
  }

  /** The `for notebook in notebooks: try ... except` loop. */
  method ProcessAll(fs: FileSystem, paths: seq<string>) returns (reports: seq<Report>, after: FileSystem)
    ensures BatchRun(reports, after) == Batch(fs, paths)
    ensures |reports| == |paths|
    ensures forall i :: 0 <= i < |paths| ==> reports[i].path == paths[i]
  {
    reports := [];
    after := fs;
    var i := 0;
    while i < |paths|
      invariant 0 <= i <= |paths|
      invariant |reports| == i
      invariant forall j :: 0 <= j < i ==> reports[j].path == paths[j]
      invariant Batch(fs, paths).reports == reports + Batch(after, paths[i..]).reports
      invariant Batch(fs, paths).after == Batch(after, paths[i..]).after
    {
      // an exception is caught here and turned into a Failed outcome
      var run := FixNotebook(after, paths[i]);
      assert paths[i..][1..] == paths[i + 1..];
      reports := reports + [Report(paths[i], run.outcome)];
      after := run.after;
      i := i + 1;
    }
    assert paths[i..] == [];
  }

  /** The script as shipped: the two hard-coded notebooks, in order. */
  function RunScript(fs: FileSystem): (b: BatchRun)
    ensures |b.reports| == 2
    ensures b.reports[0].path == "Model_Pruning.ipynb"
    ensures b.reports[1].path == "C4AIScholarsChallenge_2022.ipynb"
    ensures b.reports[0].outcome == FixNotebook(fs, Targets[0]).outcome
    // the second notebook runs on the files the first left, whatever its outcome
    ensures b.reports[1].outcome == FixNotebook(FixNotebook(fs, Targets[0]).after, Targets[1]).outcome
  {
    assert Targets[1..] == [Targets[1]];
    Batch(fs, Targets)
  }

  /** Processing a list is processing its first part, then its second part
      on the files the first part left. */
  lemma {:induction false} BatchAppend(fs: FileSystem, front: seq<string>, back: seq<string>)
    ensures var first := Batch(fs, front);
            var second := Batch(first.after, back);
            Batch(fs, front + back) == BatchRun(first.reports + second.reports, second.after)
    decreases |front|
  {
    if |front| == 0 {
      assert front + back == back;
    } else {
      var run := FixNotebook(fs, front[0]);
      var whole := front + back;
      assert whole[0] == front[0];
      assert whole[1..] == front[1..] + back;
      BatchAppend(run.after, front[1..], back);
      var first := Batch(run.after, front[1..]);
      var second := Batch(first.after, back);
      assert Batch(fs, front) == BatchRun([Report(front[0], run.outcome)] + first.reports, first.after);
      assert Batch(fs, whole) == BatchRun([Report(front[0], run.outcome)] + (first.reports + second.reports), second.after);
    }
  }

  /** The i-th report is the outcome of fixing the i-th path against the
      files left by processing the paths before it. */
  lemma {:induction false} ReportsInOrder(fs: FileSystem, paths: seq<string>, i: nat)
    requires i < |paths|
    ensures Batch(fs, paths).reports[i] ==
              Report(paths[i], FixNotebook(Batch(fs, paths[..i]).after, paths[i]).outcome)
  {
    assert paths == paths[..i] + paths[i..];
    BatchAppend(fs, paths[..i], paths[i..]);
  }

  /** A notebook that fails without saving anything (it does not load, the
      metadata step raises, or the backup save raises) leaves every other
      report as if it were not in the list: later notebooks are still
      processed, against the same files. */
  lemma {:induction false} FailureIsIsolated(fs: FileSystem, paths: seq<string>, i: nat)
    requires i < |paths|
    requires FixNotebook(Batch(fs, paths[..i]).after, paths[i]).outcome.Failed?
    requires FixNotebook(Batch(fs, paths[..i]).after, paths[i]).outcome != Failed(WriteFailed(paths[i]))
    ensures var whole := Batch(fs, paths);
            var without := Batch(fs, paths[..i] + paths[i + 1..]);
            && whole.reports[..i] + whole.reports[i + 1..] == without.reports
            && whole.after == without.after
  {
    var before := Batch(fs, paths[..i]);
    var run := FixNotebook(before.after, paths[i]);
    var rest := Batch(before.after, paths[i + 1..]);
    assert paths[i..][1..] == paths[i + 1..];
    assert Batch(before.after, paths[i..]) == BatchRun([Report(paths[i], run.outcome)] + rest.reports, rest.after);
    BatchSplit(fs, paths, i);
    BatchAppend(fs, paths[..i], paths[i + 1..]);
    var whole := Batch(fs, paths);
    assert whole.reports == before.reports + ([Report(paths[i], run.outcome)] + rest.reports);
    assert whole.reports[..i] == before.reports;
    assert whole.reports[i + 1..] == rest.reports;
  }

  /** Helper for the isolation lemma: the whole batch splits at position i. */
  lemma BatchSplit(fs: FileSystem, paths: seq<string>, i: nat)
    requires i <= |paths|
    ensures var first := Batch(fs, paths[..i]);
            var second := Batch(first.after, paths[i..]);
            Batch(fs, paths) == BatchRun(first.reports + second.reports, second.after)
  {
    assert paths == paths[..i] + paths[i..];
    BatchAppend(fs, paths[..i], paths[i..]);
  }

  /** Listing a notebook twice fixes it at most once: if the first pass
      succeeds, the second saves nothing and changes nothing. */
  lemma RepeatedNotebookIsIdempotent(fs: FileSystem, path: string)
    requires !FixNotebook(fs, path).outcome.Failed?
    ensures var b := Batch(fs, [path, path]);
            var once := Batch(fs, [path]);
            && b.after == once.after
            && FixNotebook(once.after, path).writes == []
            && (b.reports[0].outcome.Fixed? ==> b.reports[1].outcome == StateKeyPresent)
  {
    FixNotebookIdempotent(fs, path);
    assert [path, path][1..] == [path];
  }
}
