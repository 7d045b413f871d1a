/**
 One call of `fix_widget_metadata(notebook_path)`: load the notebook, run
 the metadata step, and on a rewrite save the in-memory notebook twice,
 first to `<path>.backup` and then over `<path>`. Reading and writing
 files is abstract: a file system maps paths to parsed notebooks, and a
 successful save is recorded as a write event.
 */
module NotebookFix {
  import opened PyJson
  import opened WidgetFix

  /** A notebook as `nbformat.read(path, as_version=4)` returns it: the
      metadata dict and every other top-level field (cells, format version). */
  datatype Notebook = Notebook(metadata: map<string, Json>, rest: map<string, Json>)

  /** What a path holds: a notebook that parses, or content that does not. */
  datatype Stored = Parsed(notebook: Notebook) | Unparsable

  /** The files the script can see, and the paths whose save raises
      (no permission, no space). */
  datatype FileSystem = FileSystem(files: map<string, Stored>, unwritable: set<string>)

  /** A completed save of `notebook` to `path`. */
  datatype Write = Write(path: string, notebook: Notebook)

  /** Why processing one notebook stopped with an exception. */
  datatype Failure =
    | LoadFailed              // missing or unparsable file (line 21)
    | PythonError(error: PyError) // raised by the metadata step (lines 24-61)
    | WriteFailed(path: string)   // a save raised (lines 70-71 or 75)

  /** The status a run reports on the console, as a tag. */
  datatype Outcome =
    | NoWidgetStateFound
    | StateKeyPresent
    | Fixed(widgetCount: nat)
    | Failed(failure: Failure)

  /** The outcome, the saves performed in order, and the resulting files. */
  datatype Run = Run(outcome: Outcome, writes: seq<Write>, after: FileSystem)

  function BackupPath(path: string): string {
    path + ".backup"
  }

  /** The file system after one completed save. */
  function Store(fs: FileSystem, w: Write): FileSystem {
    fs.(files := fs.files[w.path := Parsed(w.notebook)])
  }

  /** The file system after a sequence of completed saves, in order. */
  function ApplyWrites(fs: FileSystem, writes: seq<Write>): FileSystem
    decreases |writes|
  {
    if |writes| == 0 then fs else ApplyWrites(Store(fs, writes[0]), writes[1..])
  }

  /** The backup never lands on the notebook's own path. */
  lemma BackupPathDiffers(path: string)
    ensures BackupPath(path) != path
  {
    assert |BackupPath(path)| == |path| + 7;
  }

  /** The loaded notebook, when `path` holds one that parses. */
  ghost predicate Loads(fs: FileSystem, path: string) {
    path in fs.files && fs.files[path].Parsed?
  }

  function FixNotebook(fs: FileSystem, path: string): (run: Run)
    // the saves listed are the only change to the files
    ensures run.after == ApplyWrites(fs, run.writes)
    // early returns and most failures save nothing
    ensures !run.outcome.Fixed? && run.outcome != Failed(WriteFailed(path)) ==>
              run.writes == [] && run.after == fs
    // a failed save of the notebook itself leaves only the backup saved
    ensures run.outcome == Failed(WriteFailed(path)) ==>
              |run.writes| == 1 && run.writes[0].path == BackupPath(path)
    // a fix saves the same rewritten notebook twice, backup first
    ensures run.outcome.Fixed? ==>
              && Loads(fs, path)
              && |run.writes| == 2
              && run.writes[0].path == BackupPath(path)
              && run.writes[1].path == path
              && run.writes[0].notebook == run.writes[1].notebook
              && run.writes[1].notebook.rest == fs.files[path].notebook.rest
              && WrapsWidgetState(fs.files[path].notebook.metadata, run.writes[1].notebook.metadata)
    // the file system's permissions never change
    ensures run.after.unwritable == fs.unwritable
  {
    if path !in fs.files || fs.files[path].Unparsable? then
      Run(Failed(LoadFailed), [], fs)
    else
      var notebook := fs.files[path].notebook;
      match FixMetadata(notebook.metadata)
      case NoWidgetState => Run(NoWidgetStateFound, [], fs)
      case AlreadyHasState => Run(StateKeyPresent, [], fs)
      case Raised(e) => Run(Failed(PythonError(e)), [], fs)
      case Rewrapped(metadata, count) =>
        // the in-memory notebook is changed before either save
        var fixed := notebook.(metadata := metadata);
        var backup := Write(BackupPath(path), fixed);
        var target := Write(path, fixed);
        if backup.path in fs.unwritable then
          Run(Failed(WriteFailed(backup.path)), [], fs)
        else if path in fs.unwritable then
          BackupPathDiffers(path);
          assert ApplyWrites(Store(fs, backup), []) == Store(fs, backup);
          Run(Failed(WriteFailed(path)), [backup], Store(fs, backup))
        else
          assert [backup, target][1..] == [target];
          assert ApplyWrites(Store(fs, backup), [target]) == Store(Store(fs, backup), target);
          Run(Fixed(count), [backup, target], Store(Store(fs, backup), target))
  }

  /** Which failure each error path reports. A file that is missing or does
      not parse is a load failure. A rewrite whose backup save raises reports
      the backup path, and one whose own save raises reports the notebook's
      path. In that last case the backup already holds the rewritten notebook
      while the notebook's file keeps the old one. */
  lemma FailuresReported(fs: FileSystem, path: string)
    ensures var run := FixNotebook(fs, path);
            var rewrites := Loads(fs, path) && FixMetadata(fs.files[path].notebook.metadata).Rewrapped?;
            && (run.outcome == Failed(LoadFailed) <==> !Loads(fs, path))
            && (run.outcome == Failed(WriteFailed(BackupPath(path))) <==>
                  rewrites && BackupPath(path) in fs.unwritable)
            && (run.outcome == Failed(WriteFailed(path)) <==>
                  rewrites && BackupPath(path) !in fs.unwritable && path in fs.unwritable)
            && (run.outcome == Failed(WriteFailed(path)) ==>
                  && |run.writes| == 1
                  && run.writes[0].notebook ==
                       fs.files[path].notebook.(metadata := FixMetadata(fs.files[path].notebook.metadata).metadata)
                  && path in run.after.files
                  && run.after.files[path] == fs.files[path])
  {
    BackupPathDiffers(path);
  }

  /** The outcome follows the metadata step: an early return or exception
      there is reported as such (the exception being the TypeError the step
      raised), and a rewrite is reported as fixed with its
      widget count unless a save raises. */
  lemma OutcomeFollowsMetadata(fs: FileSystem, path: string)
    requires Loads(fs, path)
    ensures var d := FixMetadata(fs.files[path].notebook.metadata);
            var run := FixNotebook(fs, path);
            && (d == NoWidgetState <==> run.outcome == NoWidgetStateFound)
            && (d == AlreadyHasState <==> run.outcome == StateKeyPresent)
            && (d.Raised? <==> run.outcome.Failed? && run.outcome.failure.PythonError?)
            // the exception reported is the one the metadata step raised
            && (d.Raised? ==> run.outcome == Failed(PythonError(d.error)))
            && (run.outcome.Failed? && run.outcome.failure.PythonError? ==>
                  run.outcome.failure.error == TypeError)
            && (run.outcome.Fixed? <==>
                  d.Rewrapped? && BackupPath(path) !in fs.unwritable && path !in fs.unwritable)
            && (run.outcome.Fixed? ==> run.outcome.widgetCount == d.widgetCount)
            && (run.outcome == Failed(WriteFailed(BackupPath(path))) <==>
                  d.Rewrapped? && BackupPath(path) in fs.unwritable)
            && (run.outcome == Failed(WriteFailed(path)) <==>
                  d.Rewrapped? && BackupPath(path) !in fs.unwritable && path in fs.unwritable)
            && run.outcome != Failed(LoadFailed)
  {
    BackupPathDiffers(path);
  }

  /** A notebook without a `widgets` metadata key is left alone: nothing is
      saved and no lookup fails. */
  lemma MissingWidgetsIsNoOp(fs: FileSystem, path: string)
    requires Loads(fs, path)
    requires WidgetsKey !in fs.files[path].notebook.metadata
    ensures FixNotebook(fs, path) == Run(NoWidgetStateFound, [], fs)
  {
    NoWidgetStateIff(fs.files[path].notebook.metadata);
  }

  /** The ".backup" file is not a snapshot of the notebook as loaded: it is
      written after the in-memory rewrite, so it equals the fixed notebook. */
  lemma BackupHoldsFixedNotebook(fs: FileSystem, path: string)
    requires FixNotebook(fs, path).outcome.Fixed?
    ensures var run := FixNotebook(fs, path);
            && BackupPath(path) in run.after.files
            && path in run.after.files
            && run.after.files[BackupPath(path)] == run.after.files[path]
            && run.after.files[BackupPath(path)] != fs.files[path]
  {
    var run := FixNotebook(fs, path);
    var notebook := fs.files[path].notebook;
    var fixed := run.writes[1].notebook;
    BackupPathDiffers(path);
    assert run.after == Store(Store(fs, run.writes[0]), run.writes[1]);
    RewrappedIff(notebook.metadata);
    RewriteChangesMetadata(notebook.metadata);
    assert fixed.metadata == FixMetadata(notebook.metadata).metadata;
  }

  /** Running the fix again on what a successful run left behind saves
      nothing and changes nothing; after a fix it reports the state key as
      present. */
  lemma FixNotebookIdempotent(fs: FileSystem, path: string)
    requires !FixNotebook(fs, path).outcome.Failed?
    ensures var first := FixNotebook(fs, path);
            var second := FixNotebook(first.after, path);
            && second.writes == []
            && second.after == first.after
            && (first.outcome.Fixed? ==> second.outcome == StateKeyPresent)
            && (!first.outcome.Fixed? ==> second.outcome == first.outcome)
  {
    var first := FixNotebook(fs, path);
    if first.outcome.Fixed? {
      var notebook := fs.files[path].notebook;
      BackupPathDiffers(path);
      assert first.after == Store(Store(fs, first.writes[0]), first.writes[1]);
      assert first.after.files[path] == Parsed(first.writes[1].notebook);
      assert first.writes[1].notebook.metadata == FixMetadata(notebook.metadata).metadata;
      FixMetadataIdempotent(notebook.metadata);
    }
  }
}
