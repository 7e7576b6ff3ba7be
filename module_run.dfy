/** `run_module`, the module's entry point: in check mode it exits at once;
    otherwise it fails on a missing file or on the first invalid item of
    `properties`, and else builds the request and runs the editor over the
    file. The file system is reduced to whether the file exists and the lines
    it holds; what the module writes back is returned. */
module ModuleRun {
  import opened Dicts
  import opened Editor
  import opened Request
  import opened PatchProperties

  /** How the module ends: `fail_json` with a message, or `exit_json` with the
      `changed` flag and, when the editor ran, the text written to the file. */
  datatype Reply =
    | Failed(msg: string)
    | Exited(changed: bool, rewritten: Option<seq<string>>)

  /** The message for a file that is not there. */
  function FileMissing(path: string): string {
    "file '" + path + "' does not exist"
  }

  /** Items that pass validation carry a value on every update, so the
      request can be built from them. */
  lemma {:induction false} PassedIsValued(props: seq<Prop>)
    requires FirstFailure(props) == None
    ensures UpdatesValued(props)
  {
    FirstFailureSpec(props);
  }

  /** What one call of the module does. */
  function RunModuleSpec(path: string, fileExists: bool, checkMode: bool, lines: seq<string>,
                         props: seq<Prop>, now: string): Reply
  {
    if checkMode then Exited(false, None)
    else if !fileExists then Failed(FileMissing(path))
    else
      match FirstFailure(props)
      case Some(f) => Failed(Message(f))
      case None =>
        PassedIsValued(props);
        var o := Patch(lines, UpdatesOf(props), DeletesOf(props), now);
        Exited(o.changed, Some(o.written))
  }

  /** `run_module`: check mode, the file check, the validation loop, the
      request built from the items, and the editor run over the file. */
  method RunModule(path: string, fileExists: bool, checkMode: bool, lines: seq<string>,
                   props: seq<Prop>, now: string) returns (r: Reply)
    ensures r == RunModuleSpec(path, fileExists, checkMode, lines, props, now)
  {
    if checkMode {
      return Exited(false, None);
    }
    if !fileExists {
      return Failed(FileMissing(path));
    }
    var failure := Validate(props);
    if failure.Some? {
      return Failed(Message(failure.value));
    }
    PassedIsValued(props);
    var updates, keysToDelete := BuildRequest(props);
    var written, changed, remaining := UpdateProperties(lines, updates, keysToDelete, now);
    return Exited(changed, Some(written));
  }

  /** Outside check mode the module fails exactly when the file is missing
      or some item is invalid; a failure on the items names the first invalid
      item, and check mode never fails and never touches the file. */
  lemma {:induction false} FailsIff(path: string, fileExists: bool, checkMode: bool, lines: seq<string>,
                                    props: seq<Prop>, now: string)
    ensures var r := RunModuleSpec(path, fileExists, checkMode, lines, props, now);
      r.Failed? <==> !checkMode && (!fileExists || exists i :: 0 <= i < |props| && !Valid(props[i]))
    ensures checkMode ==> RunModuleSpec(path, fileExists, checkMode, lines, props, now) == Exited(false, None)
    ensures var r := RunModuleSpec(path, fileExists, checkMode, lines, props, now);
      r.Failed? && fileExists ==>
        exists i :: 0 <= i < |props| && !Valid(props[i]) && r.msg == Message(Check(props[i]).value)
          && forall j :: 0 <= j < i ==> Valid(props[j])
  {
    FirstFailureSpec(props);
  }

  /** When the editor runs it always rewrites the file, and it reports a
      change exactly when what it writes differs from the file's lines
      stripped, one per line. */
  lemma {:induction false} ChangedIffRewrittenDiffers(path: string, fileExists: bool, checkMode: bool,
                                                      lines: seq<string>, props: seq<Prop>, now: string)
    requires !checkMode && fileExists && forall i :: 0 <= i < |props| ==> Valid(props[i])
    ensures var r := RunModuleSpec(path, fileExists, checkMode, lines, props, now);
      r.Exited? && r.rewritten.Some? && (r.changed <==> r.rewritten.value != StrippedLines(lines))
  {
    FirstFailureSpec(props);
    PassedIsValued(props);
    ChangedIffDiffers(lines, UpdatesOf(props), DeletesOf(props), now);
  }

  /** An empty `properties` list leaves every line as it was, stripped, and
      reports no change. */
  lemma {:induction false} NoPropertiesNoChange(path: string, lines: seq<string>, now: string)
    ensures RunModuleSpec(path, true, false, lines, [], now) == Exited(false, Some(StrippedLines(lines)))
  {
    EmptyRequest(lines, now);
  }
}
