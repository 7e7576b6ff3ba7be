# properties_editor, modelled in Dafny

The Ansible module `properties_editor` edits a Java-style `.properties` file in
place. The caller passes a list of `properties` items. Each item has a `key`,
an optional `value` and an `action` (`update` or `delete`). The module
validates the items, builds an `updates` dict and a `keys_to_delete` list from
them, and runs the patch engine `update_properties`. The engine makes one pass
over the file's lines:

- Every line is stripped.
- An entry line whose key is to be updated is rewritten in place. This happens
  only on the first such line, and only when its value differs.
- An entry line whose key is to be deleted is commented out, with a dated note.
- Every other line is written back stripped.
- Updates whose key is on no entry line are appended in a marked block. A key
  that appears only in a comment or in a line without `=` is still appended.
- The engine reports whether anything changed.

The files, in dependency order:

- `text.dfy` (module `Text`) holds the few Python `str` operations the engine
  uses: `isspace`, `strip()`, `startswith` and the cut made by `split('=', 1)`.
- `dicts.dfy` (module `Dicts`) models Python's insertion-ordered `dict` as a
  sequence of items with unique keys. It gives lookup, `d[k] = v` and
  `del d[k]`, with lemmas on key order and lookups.
- `editor.dfy` (module `Editor`) holds the line classification and the
  declarative specification `Patch` of one run. It also holds the method
  `UpdateProperties`: the source's loop, with the `updates` dict shrinking as
  keys are consumed, proved to agree with `Patch`.
- `patch_properties.dfy` (module `PatchProperties`) holds what a run
  guarantees:
  - how each kind of line is written, and where in the output
  - how updates and deletes interact
  - the appended block
  - when `changed` is reported
  - which requests change nothing
- `request.dfy` (module `Request`) holds the validation loop and the loop that
  builds `updates` and `keys_to_delete`, with the properties of both.
- `module_run.dfy` (module `ModuleRun`) holds `run_module` as a whole:
  - check mode
  - the missing-file failure
  - validation
  - the request build
  - the engine run

The file system and the clock are parameters. A run takes the file's lines as
`readlines()` returns them, whether the file exists, and the timestamp `now`.
It returns the strings written to the file, in order, and the `changed` flag.

Details of the code that the model keeps:

- Lines that pass through are written stripped, not as they were read
  (`library/properties_editor.py:58`, `:77`, `:79`).
- The "has it changed" test compares the current value as it stands after the
  first `=` with the stripped new value (`:66`). The current value is not
  stripped again, so `a= 1` updated to `1` counts as a change.
- Validation rejects only keys containing the space character `' '` (`:138`).
  Other whitespace in a key is accepted.
- Appended values are written as given, not stripped (`:90`).

## Model

| member | source | states |
|---|---|---|
| Text.StripSpec | library/properties_editor.py:58 | what `strip()` keeps has no space character at either end, and everything it cuts off is space |
| Text.StripStripped | library/properties_editor.py:58 | stripping a text that has no space at either end returns it unchanged, so `strip()` is idempotent |
| Text.IndexOfSpec | library/properties_editor.py:60 | the cut made by `split('=', 1)` is at an `=`, and no `=` comes before it |
| Dicts.PutGet | library/properties_editor.py:153 | after `d[k] = v` the keys are the old keys plus `k`; `k` maps to `v` and every other key keeps its value |
| Dicts.PutPosition | library/properties_editor.py:153 | assigning to a present key does not move it or any other key |
| Dicts.PutNewLast | library/properties_editor.py:153 | a new key goes after all present keys |
| Dicts.WithoutKeys | library/properties_editor.py:71 | removing a set of keys keeps exactly the keys outside the set |
| Dicts.GetWithout | library/properties_editor.py:71 | removing keys does not change the value of any key that stays |
| Dicts.WithoutKeepsOrder | library/properties_editor.py:71-89 | removing keys keeps the remaining items in their insertion order |
| Dicts.WithoutWithout | library/properties_editor.py:71 | removing one key after another is the same as removing both at once |
| Editor.ClassifySpec | library/properties_editor.py:58-62 | a line is an entry iff its stripped text is non-empty, does not start with `#` and holds `=`; the key is the text before the first `=`, stripped; the value is all the text after it, not stripped again |
| Editor.UpdateProperties | library/properties_editor.py:51-92 | the loop writes, reports and leaves in `updates` exactly what `Patch` specifies |
| Editor.EditLine | library/properties_editor.py:58-79 | one loop step emits the output of the action taken on the line, sets `changed` iff that action is not keep, and consumes the key of an entry |
| Editor.WriteAddedBlock | library/properties_editor.py:86-91 | the trailing block is written after everything before it |
| Editor.StepPreserves | library/properties_editor.py:57-79 | one loop step carries the state for `n` lines to the state for `n + 1` lines |
| PatchProperties.EntryKeysBeforeSpec | library/properties_editor.py:64-71 | a key has been consumed when the pass reaches line `n` iff an earlier entry line has that key |
| PatchProperties.AnyLineChangedSpec | library/properties_editor.py:67-73 | the flag accumulated over the lines is set iff some line is rewritten or commented out |
| PatchProperties.ChangedSpec | library/properties_editor.py:53-88 | a run reports a change iff some line is rewritten or commented out, or updates are left to append |
| PatchProperties.ChangedIffDiffers | library/properties_editor.py:53-88 | a run reports a change iff what it writes differs from the file's lines stripped, one per line |
| PatchProperties.OpaqueLineKept | library/properties_editor.py:58-79 | a blank line, a comment or a line without `=` contributes exactly its stripped text plus a newline, in its place, whatever is updated or deleted |
| PatchProperties.OtherLineKept | library/properties_editor.py:69-79 | a line the run keeps contributes exactly its text plus a newline, and that string sits at the line's offset in the output |
| PatchProperties.UntouchedEntryKept | library/properties_editor.py:76-77 | an entry whose key is neither to be updated nor to be deleted is kept: it contributes exactly its stripped text plus a newline, in its place |
| PatchProperties.FirstOccurrenceUpdated | library/properties_editor.py:64-70 | the first entry line of an updated key becomes `key=<stripped new value>` when its value differs, and is kept otherwise |
| PatchProperties.LaterOccurrenceNotUpdated | library/properties_editor.py:64-77 | a later entry line of the same key is not updated again: it is commented out if the key is to be deleted, and kept otherwise |
| PatchProperties.DeletedLine | library/properties_editor.py:72-75 | an entry line of a key to be deleted, not consumed by an update, is replaced by the dated removal note and the line behind `#` and a blank line; every occurrence gets its own block |
| PatchProperties.RewriteDiffers | library/properties_editor.py:66-70 | a rewritten line differs from the line as it stood |
| PatchProperties.EmitKeepsIff | library/properties_editor.py:66-79 | a line's output equals its text plus a newline iff it is kept |
| PatchProperties.BodyUnchangedIff | library/properties_editor.py:57-79 | the lines' output equals their texts, one per line, iff no line is rewritten or commented out |
| PatchProperties.LineInPlace | library/properties_editor.py:57-82 | each line's output sits in the written text right after the output of the lines before it |
| PatchProperties.LinesInOrder | library/properties_editor.py:57-82 | the output of a later line starts no earlier than the output of an earlier line ends |
| PatchProperties.BodyPrefix | library/properties_editor.py:56-79 | the output of the first `m` lines is a prefix of the output of the first `n >= m` lines |
| PatchProperties.BodyLength | library/properties_editor.py:68-79 | every line contributes at least one string |
| PatchProperties.BlockLast | library/properties_editor.py:81-91 | the appended block comes after the output of every line |
| PatchProperties.AppendBlockSpec | library/properties_editor.py:86-91 | the block is empty iff nothing is left; otherwise it is the dated header, one `key=value` line per leftover item in order with the value unstripped, and the closing line |
| PatchProperties.LeftoverUnmatched | library/properties_editor.py:64-90 | the updates left to append are exactly those whose key is on no entry line, with their given values, in insertion order |
| PatchProperties.ParsedTexts | library/properties_editor.py:58-79 | writing the classified lines back as they stand writes the file's lines stripped |
| PatchProperties.DeleteOfAbsentKeyIsNoOp | library/properties_editor.py:72-88 | deleting a key that is on no entry line changes neither the output nor the flag |
| PatchProperties.SameActionsSameRun | library/properties_editor.py:72 | two delete lists that agree on every entry key give the same output and flag |
| PatchProperties.NoActionWithoutRequest | library/properties_editor.py:64-72 | with nothing to update or delete, no line changes |
| PatchProperties.EmptyRequest | library/properties_editor.py:51-92 | with nothing to update or delete, a run writes the lines stripped and reports no change |
| PatchProperties.MatchingUpdateIsNoOp | library/properties_editor.py:64-71 | updating a key to the value its first line already has writes the lines as they stand and reports no change |
| Request.Check | library/properties_editor.py:129-139 | an item passes iff it is valid; a failing item fails on the first check it does not pass, naming its action or key |
| Request.FirstFailureSpec | library/properties_editor.py:128-139 | there is no failure iff every item is valid; otherwise the failure is that of an item all of whose predecessors are valid |
| Request.Validate | library/properties_editor.py:128-139 | the loop stops with the failure of the first invalid item, or with none |
| Request.BuildRequest | library/properties_editor.py:149-155 | the loop builds exactly the `updates` dict and `keys_to_delete` list that the items determine |
| Request.UpdatedKeys | library/properties_editor.py:151-153 | the dict holds exactly the keys that some update item names |
| Request.LastUpdateWins | library/properties_editor.py:153 | a key maps to the value of the last item that updates it |
| Request.FirstUpdateOrder | library/properties_editor.py:153 | keys are ordered by their first update; a later update of a key does not move it |
| Request.NewKeyGoesLast | library/properties_editor.py:153 | a key first updated by the last item goes after every earlier key |
| Request.DeletesOfSpec | library/properties_editor.py:154-155 | the delete list holds the key of every delete item and nothing else |
| ModuleRun.PassedIsValued | library/properties_editor.py:134-153 | items that pass validation carry a value on every update |
| ModuleRun.RunModule | library/properties_editor.py:94-160 | the entry point does what `RunModuleSpec` specifies: check mode, the file check, validation, the request build and the engine run, in that order |
| ModuleRun.FailsIff | library/properties_editor.py:118-139 | outside check mode the module fails iff the file is missing or some item is invalid; the message names the first invalid item; check mode exits unchanged |
| ModuleRun.ChangedIffRewrittenDiffers | library/properties_editor.py:81-158 | when the engine runs it always rewrites the file, and reports a change iff what it writes differs from the lines stripped |
| ModuleRun.NoPropertiesNoChange | library/properties_editor.py:149-158 | an empty `properties` list rewrites the file stripped and reports no change |

## Left out

- File I/O (`open`, `readlines`, `writelines`, `write`). The file's lines come
  in as a sequence, and what is written goes out as the sequence of strings
  passed to the writes. The model does not join them into one text.
- `datetime.datetime.now()` and its formatting. `now` is an opaque string
  parameter.
- The backup copy made with `shutil.copy`, and its file name. This is a file
  system side effect.
- `os.path.exists`. It is reduced to a boolean parameter.
- The `AnsibleModule` argument spec and its type checks, `exit_json`/`fail_json`
  as process exits, and `main`. The module's end is the `Reply` value.
- The `DOCUMENTATION` and `EXAMPLES` strings.
- Request.DeletesOfSpec: states which keys the delete list holds and bounds its
  length. It does not count how often each key occurs. The list's exact
  contents, duplicates included, are given by `DeletesOf` and by
  `BuildRequest`'s postcondition.
- Text.IsSpace: lists the whitespace characters of Python's `str.isspace()`
  as of Unicode 15. A later Unicode version could change that set.
