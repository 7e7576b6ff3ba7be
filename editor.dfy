/** The line-rewriting patch engine of the properties editor
    (`update_properties`): one pass over the lines of a `.properties` file
    that rewrites updated entries in place, comments out deleted ones and
    passes everything else through stripped, followed by a trailing block for
    the updated keys the file did not have.

    `Patch` states declaratively what one run writes, what `changed` it
    reports and what is left of the `updates` dict; `UpdateProperties` is
    the loop itself, proved to agree with it. */
module Editor {
  import opened Text
  import opened Dicts

  /** A line of the file after `strip()`: an entry `key=value`, or any other
      line (blank, comment, or without `=`). `text` is the stripped line. */
  datatype Line =
    | Opaque(text: string)
    | Entry(text: string, key: string, value: string)

  /** Classifies one line as read from the file. */
  function Classify(raw: string): Line {
    var line := Strip(raw);
    if line != [] && !StartsWith(line, "#") && '=' in line then
      var sep := IndexOf(line, '=');
      Entry(line, Strip(line[..sep]), line[sep + 1..])
    else
      Opaque(line)
  }

  /** A line is an entry when its stripped text is non-empty, does not start
      with `#` and holds an `=`; the key is the text before the first `=`,
      stripped, and the value all of the text after it, not stripped again. */
  lemma {:induction false} ClassifySpec(raw: string)
    ensures var l := Classify(raw);
      && l.text == Strip(raw)
      && (l.Entry? <==> l.text != [] && !StartsWith(l.text, "#") && '=' in l.text)
      && (l.Entry? ==>
            var i := |l.text| - |l.value| - 1;
            && 0 <= i && l.text[i] == '=' && '=' !in l.text[..i]
            && l.key == Strip(l.text[..i])
            && l.value == l.text[i + 1..])
  {
    var line := Strip(raw);
    if line != [] && !StartsWith(line, "#") && '=' in line {
      IndexOfSpec(line, '=');
    }
  }

  /** The comment written in front of a commented-out entry. */
  function RemovalNote(key: string, now: string): string {
    "\n# The following property (" + key + ") was removed by ansible on " + now + "\n"
  }

  /** The comment that opens the block of appended entries. */
  function AddedHeader(now: string): string {
    "\n\n# Added by ansible at " + now + "\n"
  }

  /** The line that closes the block of appended entries. */
  const AddedFooter: string := "#################\n"

  /** Every line of the file, classified, in order. */
  function Parse(lines: seq<string>): (ls: seq<Line>)
    ensures |ls| == |lines|
  {
    if lines == [] then [] else Parse(lines[..|lines| - 1]) + [Classify(lines[|lines| - 1])]
  }

  /** Line `i` of the parsed file is line `i` of the file, classified. */
  lemma {:induction false} ParseAt(lines: seq<string>, i: nat)
    requires i < |lines|
    ensures Parse(lines)[i] == Classify(lines[i])
  {
    if i < |lines| - 1 {
      ParseAt(lines[..|lines| - 1], i);
      assert lines[..|lines| - 1][i] == lines[i];
    }
  }

  /** The keys of the entry lines among the first `n` lines. */
  function EntryKeysBefore(ls: seq<Line>, n: nat): set<string>
    requires n <= |ls|
  {
    if n == 0 then {}
    else EntryKeysBefore(ls, n - 1) + (if ls[n - 1].Entry? then {ls[n - 1].key} else {})
  }

  /** What happens to one line. */
  datatype Action =
    | Keep                          // re-emitted as its stripped text
    | Rewrite(newValue: string)     // becomes `key=newValue`
    | CommentOut                    // replaced by the removal note and `#` + text

  /** What the run does with line `i`: an entry whose key is to be updated and
      did not occur on an earlier entry line is rewritten when its value differs
      from the stripped new value; any other entry whose key is to be deleted is
      commented out; everything else is kept. */
  function ActionAt(ls: seq<Line>, i: nat, updates: Dict, keysToDelete: seq<string>): (a: Action)
    requires i < |ls|
    ensures a != Keep ==> ls[i].Entry?
  {
    var l := ls[i];
    if !l.Entry? then Keep
    else if l.key in Keys(updates) && l.key !in EntryKeysBefore(ls, i) then
      var newValue := Strip(Get(updates, l.key));
      if l.value != newValue then Rewrite(newValue) else Keep
    else if l.key in keysToDelete then CommentOut
    else Keep
  }

  /** What the run does with an entry, given the updates still pending when
      it reaches the line: a pending key is consumed, and the line rewritten
      when its value differs from the stripped new value; otherwise a key to
      be deleted is commented out; anything else is kept. */
  function Decide(l: Line, pending: Dict, keysToDelete: seq<string>): (a: Action)
    ensures a != Keep ==> l.Entry?
  {
    if !l.Entry? then Keep
    else if l.key in Keys(pending) then
      var newValue := Strip(Get(pending, l.key));
      if l.value != newValue then Rewrite(newValue) else Keep
    else if l.key in keysToDelete then CommentOut
    else Keep
  }

  /** The strings a line contributes to the output under action `a`. */
  function Emit(l: Line, a: Action, now: string): seq<string>
    requires a != Keep ==> l.Entry?
  {
    match a
    case Keep => [l.text + "\n"]
    case Rewrite(newValue) => [l.key + "=" + newValue + "\n"]
    case CommentOut => [RemovalNote(l.key, now), "#" + l.text + "\n\n"]
  }

  /** The strings line `i` contributes to the output. */
  function EmitAt(ls: seq<Line>, i: nat, updates: Dict, keysToDelete: seq<string>, now: string): seq<string>
    requires i < |ls|
  {
    Emit(ls[i], ActionAt(ls, i, updates, keysToDelete), now)
  }

  /** What the first `n` lines contribute, in line order. */
  function Body(ls: seq<Line>, n: nat, updates: Dict, keysToDelete: seq<string>, now: string): seq<string>
    requires n <= |ls|
  {
    if n == 0 then []
    else Body(ls, n - 1, updates, keysToDelete, now) + EmitAt(ls, n - 1, updates, keysToDelete, now)
  }

  /** Whether the pass rewrites or comments out any of the first `n` lines. */
  function AnyLineChanged(ls: seq<Line>, n: nat, updates: Dict, keysToDelete: seq<string>): bool
    requires n <= |ls|
  {
    n > 0 && (AnyLineChanged(ls, n - 1, updates, keysToDelete) || ActionAt(ls, n - 1, updates, keysToDelete) != Keep)
  }

  /** The line written for an appended item, its value as given. */
  function ItemLine(item: Item): string {
    item.key + "=" + item.value + "\n"
  }

  /** One line per item, in order. */
  function ItemLines(items: seq<Item>): (r: seq<string>)
    ensures |r| == |items|
    ensures forall j :: 0 <= j < |items| ==> r[j] == ItemLine(items[j])
  {
    if items == [] then [] else ItemLines(items[..|items| - 1]) + [ItemLine(items[|items| - 1])]
  }

  /** The trailing block for the updates no line consumed: none when there are none. */
  function AppendBlock(left: Dict, now: string): seq<string> {
    if left == [] then [] else [AddedHeader(now)] + ItemLines(left) + [AddedFooter]
  }

  /** The result of one run: every string written to the file, in order, the
      `changed` flag, and the updates dict as the run leaves it. */
  datatype Outcome = Outcome(written: seq<string>, changed: bool, leftover: Dict)

  /** Where the pass stands after the first `n` lines: what they contribute,
      whether one of them was rewritten or commented out, and the updates
      whose key is on none of their entry lines. */
  function Scanned(ls: seq<Line>, n: nat, updates: Dict, keysToDelete: seq<string>, now: string): Outcome
    requires n <= |ls|
  {
    Outcome(Body(ls, n, updates, keysToDelete, now),
            AnyLineChanged(ls, n, updates, keysToDelete),
            Without(updates, EntryKeysBefore(ls, n)))
  }

  /** One run over classified lines. The updates still pending at the end are
      those whose key is on no entry line; they are appended, and the run
      reports a change exactly when it rewrote or commented out some line or
      has updates left to append. */
  function Run(ls: seq<Line>, updates: Dict, keysToDelete: seq<string>, now: string): Outcome {
    var s := Scanned(ls, |ls|, updates, keysToDelete, now);
    Outcome(s.written + AppendBlock(s.leftover, now), s.changed || s.leftover != [], s.leftover)
  }

  /** The specification of one run over the lines of the file. */
  function Patch(lines: seq<string>, updates: Dict, keysToDelete: seq<string>, now: string): Outcome {
    Run(Parse(lines), updates, keysToDelete, now)
  }

  /** How the pending updates evolve from one line to the next: an entry line
      consumes its key, if it is still pending; other lines change nothing. */
  lemma {:induction false} PendingStep(ls: seq<Line>, n: nat, updates: Dict)
    requires n < |ls|
    ensures var before := Without(updates, EntryKeysBefore(ls, n));
      Without(updates, EntryKeysBefore(ls, n + 1))
        == if ls[n].Entry? then Remove(before, ls[n].key) else before
  {
    var keys := EntryKeysBefore(ls, n);
    if ls[n].Entry? {
      WithoutWithout(updates, keys, {ls[n].key});
    } else {
      assert EntryKeysBefore(ls, n + 1) == keys;
    }
  }

  /** The declarative action of line `n` is the decision the pass takes
      with the updates still pending when it reaches the line. */
  lemma {:induction false} ActionStep(ls: seq<Line>, n: nat, updates: Dict, keysToDelete: seq<string>)
    requires n < |ls|
    ensures ActionAt(ls, n, updates, keysToDelete)
            == Decide(ls[n], Without(updates, EntryKeysBefore(ls, n)), keysToDelete)
  {
    var l := ls[n];
    var keys := EntryKeysBefore(ls, n);
    if l.Entry? {
      WithoutKeys(updates, keys, l.key);
      if l.key in Keys(updates) && l.key !in keys {
        GetWithout(updates, keys, l.key);
      }
    }
  }

  /** One step of the pass, in terms of the updates still pending: line `n`
      adds what its decision emits, counts as a change when the decision is
      not `Keep`, and consumes its key if it is an entry. */
  lemma {:induction false} Advance(ls: seq<Line>, n: nat, updates: Dict, keysToDelete: seq<string>, now: string)
    requires n < |ls|
    ensures var pending := Without(updates, EntryKeysBefore(ls, n));
      var a := Decide(ls[n], pending, keysToDelete);
      && Body(ls, n + 1, updates, keysToDelete, now) == Body(ls, n, updates, keysToDelete, now) + Emit(ls[n], a, now)
      && AnyLineChanged(ls, n + 1, updates, keysToDelete) == (AnyLineChanged(ls, n, updates, keysToDelete) || a != Keep)
      && Without(updates, EntryKeysBefore(ls, n + 1)) == if ls[n].Entry? then Remove(pending, ls[n].key) else pending
  {
    ActionStep(ls, n, updates, keysToDelete);
    PendingStep(ls, n, updates);
  }

  /** The loop invariant of `UpdateProperties` is preserved by one line:
      if the state after `n` lines is what the specification says, and line
      `n` is handled as `EditLine` promises, the state after `n + 1` lines is
      what the specification says. */
  lemma {:induction false} StepPreserves(lines: seq<string>, n: nat, updates: Dict, keysToDelete: seq<string>, now: string,
                      before: Outcome, emitted: seq<string>, lineChanged: bool, rest: Dict)
    requires n < |lines|
    requires before == Scanned(Parse(lines), n, updates, keysToDelete, now)
    requires Handles(Classify(lines[n]), before.leftover, keysToDelete, now, emitted, lineChanged, rest)
    ensures Outcome(before.written + emitted, before.changed || lineChanged, rest)
            == Scanned(Parse(lines), n + 1, updates, keysToDelete, now)
  {
    var ls := Parse(lines);
    ParseAt(lines, n);
    Advance(ls, n, updates, keysToDelete, now);
  }

  /** `update_properties`: `lines` are the lines of the file, `updates` the
      dict of requested values and `keysToDelete` the list of keys to delete.
      `written` is what the source writes back: its `updated_lines` followed by
      the appended block; `remaining` is the `updates` dict after the run. */
  method UpdateProperties(lines: seq<string>, updates: Dict, keysToDelete: seq<string>, now: string)
    returns (written: seq<string>, changed: bool, remaining: Dict)
    ensures Outcome(written, changed, remaining) == Patch(lines, updates, keysToDelete, now)
  {
    changed := false;
    remaining := updates;
    var updatedLines: seq<string> := [];
    WithoutNothing(updates);
    for n := 0 to |lines|
      invariant Outcome(updatedLines, changed, remaining) == Scanned(Parse(lines), n, updates, keysToDelete, now)
    {
      var emitted, lineChanged, rest := EditLine(Classify(lines[n]), remaining, keysToDelete, now);
      StepPreserves(lines, n, updates, keysToDelete, now, Outcome(updatedLines, changed, remaining), emitted, lineChanged, rest);
      updatedLines := updatedLines + emitted;
      changed := changed || lineChanged;
      remaining := rest;
    }
    written := updatedLines;
    if remaining != [] {
      written := WriteAddedBlock(written, remaining, now);
      changed := true;
    }
  }

  /** What handling line `l` with the updates `pending` still to place must
      produce: the output of the decision the pass takes, a change exactly when
      that decision is not `Keep`, and `pending` without the key of an entry. */
  predicate Handles(l: Line, pending: Dict, keysToDelete: seq<string>, now: string,
                    emitted: seq<string>, lineChanged: bool, rest: Dict)
  {
    var a := Decide(l, pending, keysToDelete);
    && emitted == Emit(l, a, now)
    && lineChanged == (a != Keep)
    && rest == if l.Entry? then Remove(pending, l.key) else pending
  }

  /** The body of the loop over the lines: what one line adds to
      `updated_lines`, whether it sets `changed`, and the pending updates
      after it. */
  method EditLine(l: Line, remaining: Dict, keysToDelete: seq<string>, now: string)
    returns (emitted: seq<string>, lineChanged: bool, rest: Dict)
    ensures Handles(l, remaining, keysToDelete, now, emitted, lineChanged, rest)
  {
    lineChanged := false;
    rest := remaining;
    match l
    case Entry(line, key, currentValue) =>
      if key in Keys(remaining) {
        var newValue := Strip(Get(remaining, key));
        if currentValue != newValue {
          lineChanged := true;
          emitted := [key + "=" + newValue + "\n"];
        } else {
          emitted := [line + "\n"];
        }
        rest := Remove(remaining, key);
      } else if key in keysToDelete {
        WithoutAbsent(remaining, {key});
        lineChanged := true;
        emitted := [RemovalNote(key, now)];
        emitted := emitted + ["#" + line + "\n\n"];
      } else {
        WithoutAbsent(remaining, {key});
        emitted := [line + "\n"];
      }
    case Opaque(line) =>
      emitted := [line + "\n"];
  }

  /** Writes the block of the updates left after the pass: a header comment
      carrying `now`, one `key=value` line per pending item in insertion
      order, and the closing line. */
  method WriteAddedBlock(before: seq<string>, pending: Dict, now: string) returns (written: seq<string>)
    requires pending != []
    ensures written == before + AppendBlock(pending, now)
  {
    var items: seq<string> := [];
    for j := 0 to |pending|
      invariant items == ItemLines(pending[..j])
    {
      assert pending[..j + 1][..j] == pending[..j];
      items := items + [pending[j].key + "=" + pending[j].value + "\n"];
    }
    assert pending[..|pending|] == pending;
    written := before + ([AddedHeader(now)] + items + [AddedFooter]);
  }

}
