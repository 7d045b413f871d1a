# Widget-metadata fix, modelled in Dafny

The script `fix_widget_metadata.py` repairs Jupyter notebooks whose
interactive-widget state is not nested under a `state` key. For each
notebook it:

1. loads the notebook;
2. reads `metadata["widgets"]`, treating a missing entry as an empty dict;
3. looks up the key `application/vnd.jupyter.widget-state+json`;
4. returns early if that key is missing, or if its value already holds `state`;
5. otherwise replaces the value `v` with `{"state": v}`;
6. saves the changed notebook twice: first to `<path>.backup`, then over `<path>`.

A driver applies this to a hard-coded list of two notebooks, in order. It
catches any exception per notebook, so one failure does not stop the rest.

The model has four modules:

- `PyJson` (`py_json.dfy`): JSON values as Python holds them, except that a
  str is a sequence of Unicode scalar values (see "Left out"). It also defines
  the Python built-ins the script uses on them: `in`, `len`, `[]`, `[]=` and
  `dict.get`. Each one raises where Python raises. A `widgets` value or a
  widget-state value of an unexpected shape therefore behaves as the script
  would: `in` on a list tests its elements, `in` on a str tests for a
  substring, and a scalar raises `TypeError`.
- `WidgetFix` (`widget_fix.dfy`): the pure metadata step, `FixMetadata`. It has
  four outcomes: no widget state, already has `state`, rewrapped (with the
  reported widget count), or a Python exception.
- `NotebookFix` (`notebook_fix.dfy`): one call of `fix_widget_metadata`.
  - The file system is a value: paths map to parsed notebooks or to content
    that does not parse, plus a set of paths whose save raises.
  - Each completed save is a write event.
  - The run returns an outcome tag, the saves in order, and the resulting
    files.
- `BatchDriver` (`batch.dfy`): the `__main__` loop.
  - `Batch` is a reference fold over the list.
  - `ProcessAll` is the loop itself, proved equal to `Batch`.
  - Lemmas cover ordering, failure isolation and running a notebook twice.

Three behaviours of the code are kept exactly as written:

- **The backup is not a snapshot of the original.** The in-memory notebook is
  changed at line 61, before the backup save at lines 70-71. So the
  `.backup` file equals the fixed notebook (`BackupHoldsFixedNotebook`).
- **A widget whose id is `state` counts as already wrapped.** The test at
  line 34 only looks for the key (`WidgetNamedStateCountsAsWrapped`).
- **A missing `widgets` entry never causes a lookup failure.** The empty-dict
  default at line 24 always leads to the early return at line 27.
  `FixMetadata` promises that any exception is a `TypeError`, never a
  `KeyError`; see also `MissingWidgetsIsNoOp`.

The comment at fix_widget_metadata.py:42-53 shows the expected layout: the
widget-state value maps widget ids to widget records. The code itself
accepts any JSON value there, and the model follows the code:

- for a list or a string, Python's `in` decides the early return;
- a number, boolean or null raises at line 34;
- a `widgets` value that is a list or string holding the key raises at
  line 31.

## Model

| member | source | states |
|---|---|---|
| PyJson.In | fix_widget_metadata.py:27-34 | Python `in` as used at lines 27 and 34 raises TypeError exactly on None, booleans and numbers. Otherwise it is true exactly when the string is a dict key, sits at some position of a list, or occurs at some offset of a str. |
| PyJson.IsSubstringIff | fix_widget_metadata.py:34 | The character-by-character search used for `in` on a str finds the needle exactly when it occurs at some offset. |
| PyJson.GuardProtectsSubscript | fix_widget_metadata.py:27-31 | The membership guard at line 27 protects the subscription at line 31 only for a dict: there `key in c` holds exactly when `c[key]` succeeds. A list or str holding the key still raises TypeError on subscription. |
| PyJson.SetItem | fix_widget_metadata.py:61 | Item assignment succeeds exactly on a dict. The result has the old keys plus `key`, binds `key` to the new value and keeps every other entry. Anything else raises TypeError. |
| PyJson.LenDefinedWhereInIs | fix_widget_metadata.py:34-39 | `len` raises on exactly the values `in` raises on, so once the test at line 34 has returned, the `len` at line 39 cannot raise. A dict holding a key has at least one entry. |
| PyJson.GetIsGuardedSubscript | fix_widget_metadata.py:24 | `dict.get` equals the guarded subscription: the subscripted value when `key in d`, the default otherwise. |
| WidgetFix.FixMetadata | fix_widget_metadata.py:24-61 | A rewrite changes only `widgets[widget-state key]`, which becomes `{"state": old value}`. Every other metadata key and every other `widgets` key keeps its value. The reported count is `len` of the old value, which for a dict is its number of widget ids. Any exception is a TypeError, never a KeyError. |
| WidgetFix.NoWidgetStateIff | fix_widget_metadata.py:24-29 | Nothing happens exactly when `widgets` is absent, or is a dict, list or str without the widget-state key. |
| WidgetFix.AlreadyHasStateIff | fix_widget_metadata.py:31-36 | The "already has state" return fires exactly when the widget-state entry exists and is a dict, list or str holding `state`. |
| WidgetFix.RewrappedIff | fix_widget_metadata.py:31-61 | The metadata is rewritten exactly when the widget-state entry exists and is a container without `state`. |
| WidgetFix.RaisedIff | fix_widget_metadata.py:24-61 | An exception escapes exactly when one of these holds: `widgets` is a scalar; it is a list or str holding the key; or the widget-state entry is a scalar. |
| WidgetFix.WidgetNamedStateCountsAsWrapped | fix_widget_metadata.py:34-36 | A widget-state dict that has a widget id `state` is reported as already fixed, even when other widgets sit beside it. |
| WidgetFix.FixMetadataIdempotent | fix_widget_metadata.py:34-61 | Fixing the output of a rewrite hits the "already has state" return. |
| WidgetFix.RewriteChangesMetadata | fix_widget_metadata.py:56-61 | A rewrite always yields metadata different from its input. |
| NotebookFix.BackupPathDiffers | fix_widget_metadata.py:66 | The backup path is never the notebook's own path. |
| NotebookFix.FixNotebook | fix_widget_metadata.py:11-77 | The listed saves are the only change to the files. Early returns and failures before any save write nothing. A failed save of the notebook itself leaves only the backup saved. A fix performs exactly two saves of the same rewritten notebook: backup first, then the original path. The rewritten notebook keeps all non-metadata fields. |
| NotebookFix.FailuresReported | fix_widget_metadata.py:21-75 | A missing or unparsable file is reported as a load failure, and only such a file is. A rewrite whose backup save raises reports the backup path. A rewrite whose own save raises reports the notebook's path. In that case exactly one save happened, the backup holds the rewritten notebook, and the notebook's file keeps the old one. |
| NotebookFix.OutcomeFollowsMetadata | fix_widget_metadata.py:21-75 | For a notebook that loads, each reported outcome corresponds one-to-one to the metadata step's result and the writability of the two save paths. No early return, exception, or rewrite-with-failed-save shares a tag with another case. An exception is reported as the very error the metadata step raised, which is always a TypeError. "Fixed" carries the rewrite's widget count. |
| NotebookFix.MissingWidgetsIsNoOp | fix_widget_metadata.py:24-29 | A notebook without `widgets` metadata is reported as having no widget state. Nothing is saved and the files are unchanged. |
| NotebookFix.BackupHoldsFixedNotebook | fix_widget_metadata.py:61-75 | After a fix, the `.backup` file and the notebook hold the same fixed notebook, which differs from the one loaded. |
| NotebookFix.FixNotebookIdempotent | fix_widget_metadata.py:21-75 | Re-running on the files a successful run left behind saves nothing and changes nothing. After a fix, the re-run reports `state` as present. |
| BatchDriver.Batch | fix_widget_metadata.py:83-90 | There are exactly as many reports as listed paths, whatever earlier notebooks did. The set of unwritable paths never changes. |
| BatchDriver.ProcessAll | fix_widget_metadata.py:83-90 | The loop yields one report per path, in list order, and equals the reference fold `Batch`. |
| BatchDriver.RunScript | fix_widget_metadata.py:81-90 | The script reports on its two hard-coded notebooks in order. The first outcome is that of fixing the first notebook alone. The second is that of fixing the second notebook on the files the first left, whatever the first outcome was. |
| BatchDriver.BatchAppend | fix_widget_metadata.py:83-90 | Processing `front + back` means processing `front`, then processing `back` on the files `front` left. |
| BatchDriver.BatchSplit | fix_widget_metadata.py:83-90 | A batch splits at any position into the batch of the prefix followed by the batch of the suffix. |
| BatchDriver.ReportsInOrder | fix_widget_metadata.py:83-90 | The i-th report names the i-th path. Its outcome is that of fixing this path on the files left by the earlier paths. |
| BatchDriver.FailureIsIsolated | fix_widget_metadata.py:87-90 | Take a notebook that fails before saving anything (load error, Python exception, or failed backup save). Every other report, and the final files, are as if that notebook were not in the list. |
| BatchDriver.RepeatedNotebookIsIdempotent | fix_widget_metadata.py:83-88 | After a first pass that does not fail, a second pass over the same notebook performs no save and leaves the files as the single pass left them. After a fix it reports `state` as present. A first pass that fails promises nothing here: when only the notebook's own save raises, the second pass saves the backup again. |

## Left out

- Console output (progress lines, emoji, banners) is not modelled. Each run
  instead returns an outcome tag: no widget state, state present, fixed with
  a count, or failed with a reason. Printing is assumed never to raise.
- BatchDriver.FailureIsIsolated: assumes a standard output that can encode
  the status symbols (for example UTF-8). On an output that cannot, the
  prints at lines 35, 38 and 63 raise before any save. The print at line 77
  raises after both saves, so a notebook that was in fact fixed is reported
  as an error. A raise in the print at line 90, inside the `except`
  handler, escapes the loop and stops the remaining notebooks. The model
  covers none of these cases.
- NotebookFix.BackupHoldsFixedNotebook: assumes the default text encoding is
  UTF-8, or the notebook is ASCII-only. The backup at line 70 is opened
  with `open(backup_path, 'w')` and no encoding, so Python uses the
  locale's encoding, while line 75 leaves encoding to the library. Under
  another locale, a character outside the locale's charset makes the backup
  save raise after the file was created or truncated. A character inside it
  gives a backup that need not read back as the same notebook. The model
  treats both saves as storing the same notebook value.
- Strings are sequences of Unicode scalar values, so a str holding a lone
  surrogate cannot be represented. Python's JSON reader accepts an unpaired
  `\udXXX` escape and yields such a str, so `nbformat.read` at line 21 loads
  that notebook. On a rewrite, the backup save at lines 70-71 then raises
  `UnicodeEncodeError` after `open` has truncated the file, under any
  locale. A notebook with an unpaired surrogate escape is outside the model.
- BatchDriver.ReportsInOrder: relies on the same assumption about printing
  as `FailureIsIsolated`. If a print raises inside the `except` handler,
  later notebooks get no report at all.
- Parsing and serialising with `nbformat` is not modelled. A file holds
  either a parsed notebook or content that does not parse. A save stores the
  notebook value, so a later read returns exactly what was saved; lossless
  round-tripping is an assumption about that library.
- Conversion to format version 4 on read, and schema validation, are not
  modelled. A notebook's metadata is a dict with string keys, as the version
  4 schema requires; a non-dict metadata value is not modelled.
- Partial saves are not modelled. A save either completes or raises before
  changing the file. Truncation by `open(..., 'w')` followed by a failing
  serialisation is outside the model.
- Exception kinds from I/O and `nbformat` are not modelled. They become
  `LoadFailed` or `WriteFailed(path)`. Only an exception from the metadata
  step keeps its Python kind, and `OutcomeFollowsMetadata` shows it is
  always a `TypeError`.
- JSON numbers are opaque integers, because the fix never inspects them;
  floating point is not modelled.
- The process exit status is not modelled: the script always exits normally
  after the loop.
