/** What one run of the patch engine guarantees, proved about its
    specification: `Editor.Run` over the classified lines, and `Editor.Patch`
    over the lines as read from the file. Through the postcondition of
    `Editor.UpdateProperties` every fact here holds of the loop itself. */
module PatchProperties {
  import opened Text
  import opened Dicts
  import opened Editor

  /** Line `i` is an entry line with key `k`. */
  predicate EntryWithKey(ls: seq<Line>, i: nat, k: string)
    requires i < |ls|
  {
    ls[i].Entry? && ls[i].key == k
  }

  /** The shape `Classify` gives a line: an entry's text holds its key, an
      `=` that is the first one, and its value, which is the rest. */
  predicate WellFormed(l: Line) {
    l.Entry? ==>
      var i := |l.text| - |l.value| - 1;
      && 0 <= i && l.text[i] == '=' && '=' !in l.text[..i]
      && l.key == Strip(l.text[..i]) && l.value == l.text[i + 1..]
  }

  /** Every classified line of a file has that shape. */
  lemma {:induction false} ParseWellFormed(lines: seq<string>)
    ensures forall i :: 0 <= i < |lines| ==> WellFormed(Parse(lines)[i])
  {
    forall i | 0 <= i < |lines| ensures WellFormed(Parse(lines)[i]) {
      ParseAt(lines, i);
      ClassifySpec(lines[i]);
    }
  }

  /** Each line's text with one newline: what a run writes for lines it
      leaves alone. */
  function Texts(ls: seq<Line>, n: nat): seq<string>
    requires n <= |ls|
  {
    seq(n, i requires 0 <= i < n => ls[i].text + "\n")
  }

  /** Each line of the file stripped, with one newline. */
  function StrippedLines(lines: seq<string>): seq<string> {
    seq(|lines|, i requires 0 <= i < |lines| => Strip(lines[i]) + "\n")
  }

  /** Writing the classified lines back as they stand writes the file's lines
      stripped. */
  lemma {:induction false} ParsedTexts(lines: seq<string>)
    ensures Texts(Parse(lines), |lines|) == StrippedLines(lines)
  {
    forall i | 0 <= i < |lines| ensures Texts(Parse(lines), |lines|)[i] == StrippedLines(lines)[i] {
      ParseAt(lines, i);
      ClassifySpec(lines[i]);
    }
  }

  /** A key has been seen by the time the pass reaches line `n` exactly when
      some earlier entry line carries it. */
  lemma {:induction false} EntryKeysBeforeSpec(ls: seq<Line>, n: nat, k: string)
    requires n <= |ls|
    ensures k in EntryKeysBefore(ls, n) <==> exists i :: 0 <= i < n && EntryWithKey(ls, i, k)
  {
    if n > 0 {
      EntryKeysBeforeSpec(ls, n - 1, k);
      if EntryWithKey(ls, n - 1, k) {
        assert 0 <= n - 1 < n && EntryWithKey(ls, n - 1, k);
      }
    }
  }

  /** The accumulated flag: some line among the first `n` is rewritten or
      commented out. */
  lemma {:induction false} AnyLineChangedSpec(ls: seq<Line>, n: nat, updates: Dict, keysToDelete: seq<string>)
    requires n <= |ls|
    ensures AnyLineChanged(ls, n, updates, keysToDelete)
            <==> exists i :: 0 <= i < n && ActionAt(ls, i, updates, keysToDelete) != Keep
  {
    if n > 0 {
      AnyLineChangedSpec(ls, n - 1, updates, keysToDelete);
    }
  }

  /** Output is only ever appended to: what the first `m` lines produce is a
      prefix of what the first `n` lines produce. */
  lemma {:induction false} BodyPrefix(ls: seq<Line>, m: nat, n: nat, updates: Dict, keysToDelete: seq<string>, now: string)
    requires m <= n <= |ls|
    ensures |Body(ls, m, updates, keysToDelete, now)| <= |Body(ls, n, updates, keysToDelete, now)|
    ensures Body(ls, n, updates, keysToDelete, now)[..|Body(ls, m, updates, keysToDelete, now)|]
            == Body(ls, m, updates, keysToDelete, now)
    decreases n - m
  {
    if m < n {
      BodyPrefix(ls, m, n - 1, updates, keysToDelete, now);
      var b := Body(ls, n - 1, updates, keysToDelete, now);
      assert Body(ls, n, updates, keysToDelete, now)[..|b|] == b;
    }
  }

  /** The last part of a prefix of `all` sits in `all` at the same place. */
  lemma {:induction false} SegmentAt<T>(all: seq<T>, upto: seq<T>, pre: seq<T>, seg: seq<T>)
    requires |upto| <= |all| && all[..|upto|] == upto && upto == pre + seg
    ensures |pre| + |seg| <= |all| && all[|pre|..|pre| + |seg|] == seg
  {
    assert all[|pre|..|pre| + |seg|] == upto[|pre|..];
  }

  /** A slice inside the first part of a concatenation is a slice of that part. */
  lemma {:induction false} SliceOfFirst<T>(x: seq<T>, y: seq<T>, i: nat, j: nat)
    requires i <= j <= |x|
    ensures (x + y)[i..j] == x[i..j]
  {
    assert (x + y)[..|x|] == x;
    assert (x + y)[i..j] == (x + y)[..|x|][i..j];
  }

  /** Every line's output sits in the written text at the offset where the
      output of the lines before it ends. */
  lemma {:induction false} LineInPlace(ls: seq<Line>, i: nat, updates: Dict, keysToDelete: seq<string>, now: string)
    requires i < |ls|
    ensures var w := Run(ls, updates, keysToDelete, now).written;
      var start := |Body(ls, i, updates, keysToDelete, now)|;
      var seg := EmitAt(ls, i, updates, keysToDelete, now);
      start + |seg| <= |w| && w[start..start + |seg|] == seg
  {
    var o := Run(ls, updates, keysToDelete, now);
    var body := Body(ls, |ls|, updates, keysToDelete, now);
    var start := |Body(ls, i, updates, keysToDelete, now)|;
    var seg := EmitAt(ls, i, updates, keysToDelete, now);
    BodyPrefix(ls, i + 1, |ls|, updates, keysToDelete, now);
    SegmentAt(body, Body(ls, i + 1, updates, keysToDelete, now), Body(ls, i, updates, keysToDelete, now), seg);
    SliceOfFirst(body, AppendBlock(o.leftover, now), start, start + |seg|);
  }

  /** The appended block comes after the output of every line. */
  lemma {:induction false} BlockLast(ls: seq<Line>, updates: Dict, keysToDelete: seq<string>, now: string)
    ensures var o := Run(ls, updates, keysToDelete, now);
      var body := Body(ls, |ls|, updates, keysToDelete, now);
      |body| <= |o.written| && o.written[|body|..] == AppendBlock(o.leftover, now)
  {
    var o := Run(ls, updates, keysToDelete, now);
    var body := Body(ls, |ls|, updates, keysToDelete, now);
    assert o.written == body + AppendBlock(o.leftover, now);
  }

  /** The appended block: nothing when no update is left, otherwise the
      header comment carrying `now`, one `key=value` line per leftover item in
      insertion order with its value as given, and the closing line. */
  lemma {:induction false} AppendBlockSpec(left: Dict, now: string)
    ensures AppendBlock(left, now) == [] <==> left == []
    ensures left != [] ==>
      var b := AppendBlock(left, now);
      && |b| == |left| + 2
      && b[0] == "\n\n# Added by ansible at " + now + "\n"
      && b[|b| - 1] == "#################\n"
      && forall j :: 0 <= j < |left| ==> b[j + 1] == left[j].key + "=" + left[j].value + "\n"
  {
    if left != [] {
      var b := AppendBlock(left, now);
      var items := ItemLines(left);
      assert b == [AddedHeader(now)] + items + [AddedFooter];
      forall j | 0 <= j < |left| ensures b[j + 1] == left[j].key + "=" + left[j].value + "\n" {
        assert b[j + 1] == items[j];
      }
    }
  }

  /** A run reports a change exactly when it rewrites or comments out some
      line or has updates left to append. */
  lemma {:induction false} ChangedSpec(ls: seq<Line>, updates: Dict, keysToDelete: seq<string>, now: string)
    ensures var o := Run(ls, updates, keysToDelete, now);
      o.changed <==> (exists i :: 0 <= i < |ls| && ActionAt(ls, i, updates, keysToDelete) != Keep) || o.leftover != []
  {
    AnyLineChangedSpec(ls, |ls|, updates, keysToDelete);
  }

  /** Original line order is kept: the output of a later line starts no
      earlier than where the output of an earlier one ends. */
  lemma {:induction false} LinesInOrder(ls: seq<Line>, i: nat, j: nat, updates: Dict, keysToDelete: seq<string>, now: string)
    requires i < j <= |ls|
    ensures |Body(ls, i, updates, keysToDelete, now)| + |EmitAt(ls, i, updates, keysToDelete, now)|
            <= |Body(ls, j, updates, keysToDelete, now)|
  {
    BodyPrefix(ls, i + 1, j, updates, keysToDelete, now);
  }

  /** A line the run keeps contributes exactly its text and one newline,
      and that string sits in its place in the written text. */
  lemma {:induction false} OtherLineKept(ls: seq<Line>, i: nat, updates: Dict, keysToDelete: seq<string>, now: string)
    requires i < |ls| && ActionAt(ls, i, updates, keysToDelete) == Keep
    ensures EmitAt(ls, i, updates, keysToDelete, now) == [ls[i].text + "\n"]
    ensures var w := Run(ls, updates, keysToDelete, now).written;
      var start := |Body(ls, i, updates, keysToDelete, now)|;
      start < |w| && w[start] == ls[i].text + "\n"
  {
    LineInPlace(ls, i, updates, keysToDelete, now);
  }

  /** An entry whose key is neither to be updated nor to be deleted is kept:
      it is written as its stripped text and one newline, in its place. */
  lemma {:induction false} UntouchedEntryKept(ls: seq<Line>, i: nat, updates: Dict, keysToDelete: seq<string>, now: string)
    requires i < |ls| && ls[i].Entry? && ls[i].key !in Keys(updates) && ls[i].key !in keysToDelete
    ensures ActionAt(ls, i, updates, keysToDelete) == Keep
    ensures EmitAt(ls, i, updates, keysToDelete, now) == [ls[i].text + "\n"]
    ensures var w := Run(ls, updates, keysToDelete, now).written;
      var start := |Body(ls, i, updates, keysToDelete, now)|;
      start < |w| && w[start] == ls[i].text + "\n"
  {
    OtherLineKept(ls, i, updates, keysToDelete, now);
  }

  /** A blank line, a comment or a line without `=` is written as its stripped
      text and one newline, in its place, whatever is to be updated or
      deleted. */
  lemma {:induction false} OpaqueLineKept(lines: seq<string>, i: nat, updates: Dict, keysToDelete: seq<string>, now: string)
    requires i < |lines|
    requires var t := Strip(lines[i]); t == [] || StartsWith(t, "#") || '=' !in t
    ensures EmitAt(Parse(lines), i, updates, keysToDelete, now) == [Strip(lines[i]) + "\n"]
    ensures var w := Patch(lines, updates, keysToDelete, now).written;
      var start := |Body(Parse(lines), i, updates, keysToDelete, now)|;
      start < |w| && w[start] == Strip(lines[i]) + "\n"
  {
    ParseAt(lines, i);
    ClassifySpec(lines[i]);
    OtherLineKept(Parse(lines), i, updates, keysToDelete, now);
  }

  /** The first entry line of a key to be updated consumes the update: it
      becomes `key=<stripped new value>` when its value differs from the
      stripped new value, and a change is counted; otherwise it is written as
      it stands and no change is counted. */
  lemma {:induction false} FirstOccurrenceUpdated(ls: seq<Line>, i: nat, updates: Dict, keysToDelete: seq<string>, now: string)
    requires i < |ls| && ls[i].Entry? && ls[i].key in Keys(updates)
    requires forall j :: 0 <= j < i ==> !EntryWithKey(ls, j, ls[i].key)
    ensures var l := ls[i];
      var newValue := Strip(Get(updates, l.key));
      && EmitAt(ls, i, updates, keysToDelete, now)
         == (if l.value != newValue then [l.key + "=" + newValue + "\n"] else [l.text + "\n"])
      && (ActionAt(ls, i, updates, keysToDelete) != Keep <==> l.value != newValue)
  {
    EntryKeysBeforeSpec(ls, i, ls[i].key);
  }

  /** Later entry lines of an updated key are not updated again: once the
      first one consumed the update they are kept, or commented out when the
      key is also to be deleted. */
  lemma {:induction false} LaterOccurrenceNotUpdated(ls: seq<Line>, i: nat, j: nat, k: string, updates: Dict, keysToDelete: seq<string>)
    requires i < j < |ls|
    requires EntryWithKey(ls, i, k) && EntryWithKey(ls, j, k)
    ensures ActionAt(ls, j, updates, keysToDelete) == if k in keysToDelete then CommentOut else Keep
  {
    EntryKeysBeforeSpec(ls, j, k);
  }

  /** An entry line of a key to be deleted that no update consumes is replaced
      by a blank line, the removal note with the key and `now`, the line's
      text behind a `#`, and a blank line; a change is counted. Every such
      line gets its own block: the delete list is never consumed. */
  lemma {:induction false} DeletedLine(ls: seq<Line>, i: nat, updates: Dict, keysToDelete: seq<string>, now: string)
    requires i < |ls| && ls[i].Entry? && ls[i].key in keysToDelete
    requires ls[i].key !in Keys(updates) || exists j :: 0 <= j < i && EntryWithKey(ls, j, ls[i].key)
    ensures && ActionAt(ls, i, updates, keysToDelete) == CommentOut
            && EmitAt(ls, i, updates, keysToDelete, now)
               == ["\n# The following property (" + ls[i].key + ") was removed by ansible on " + now + "\n",
                   "#" + ls[i].text + "\n\n"]
  {
    EntryKeysBeforeSpec(ls, i, ls[i].key);
  }

  /** The updates left for the appended block are exactly those whose key is
      on no entry line, with their values as given (not stripped) and in the
      order they were inserted. */
  lemma {:induction false} LeftoverUnmatched(ls: seq<Line>, updates: Dict, keysToDelete: seq<string>, now: string, k: string)
    ensures var left := Run(ls, updates, keysToDelete, now).leftover;
      && (k in Keys(left) <==> k in Keys(updates) && forall i :: 0 <= i < |ls| ==> !EntryWithKey(ls, i, k))
      && (k in Keys(left) ==> Get(left, k) == Get(updates, k))
    ensures var left := Run(ls, updates, keysToDelete, now).leftover;
      forall x, y :: 0 <= x < y < |left| ==>
        left[x].key in Keys(updates) && left[y].key in Keys(updates)
        && Position(updates, left[x].key) < Position(updates, left[y].key)
  {
    var seen := EntryKeysBefore(ls, |ls|);
    EntryKeysBeforeSpec(ls, |ls|, k);
    WithoutKeys(updates, seen, k);
    if k in Keys(updates) && k !in seen {
      GetWithout(updates, seen, k);
    }
    forall x, y | 0 <= x < y < |Without(updates, seen)|
      ensures Without(updates, seen)[x].key in Keys(updates) && Without(updates, seen)[y].key in Keys(updates)
      ensures Position(updates, Without(updates, seen)[x].key) < Position(updates, Without(updates, seen)[y].key)
    {
      WithoutKeepsOrder(updates, seen, x, y);
    }
  }

  /** Each line contributes at least one string; a commented-out line two. */
  lemma {:induction false} BodyLength(ls: seq<Line>, n: nat, updates: Dict, keysToDelete: seq<string>, now: string)
    requires n <= |ls|
    ensures |Body(ls, n, updates, keysToDelete, now)| >= n
  {
    if n > 0 {
      BodyLength(ls, n - 1, updates, keysToDelete, now);
    }
  }

  /** The key of a classified entry holds no `=`: it is cut from the text
      before the first one. */
  lemma {:induction false} NoSeparatorInKey(l: Line)
    requires l.Entry? && WellFormed(l)
    ensures '=' !in l.key
  {
    var head := l.text[..|l.text| - |l.value| - 1];
    forall c | 0 <= c < |l.key| ensures l.key[c] != '=' {
      assert l.key[c] == head[StripStart(head) + c];
    }
  }

  /** The parts of a `key=value` line. */
  lemma {:induction false} JoinedParts(k: string, v: string)
    ensures var line := k + "=" + v;
      |line| == |k| + 1 + |v| && line[|k|] == '=' && line[..|k|] == k && line[|k| + 1..] == v
  {
    var line := k + "=" + v;
    assert line[..|k|] == k;
    assert line[|k| + 1..] == v;
  }

  /** Putting a different value on an entry line never gives back the line:
      the key holds no `=`, so the rewritten line has its first `=` where the
      original has, and what follows differs. */
  lemma {:induction false} RewriteDiffers(l: Line, newValue: string)
    requires l.Entry? && WellFormed(l) && l.value != newValue
    ensures l.key + "=" + newValue != l.text
  {
    var t, k := l.text, l.key;
    NoSeparatorInKey(l);
    JoinedParts(k, newValue);
    if k + "=" + newValue == t {
      FirstOccurrenceUnique(t, '=', |k|, |t| - |l.value| - 1);
    }
  }

  /** A line's output is its text and one newline exactly when it is kept. */
  lemma {:induction false} EmitKeepsIff(l: Line, a: Action, now: string)
    requires a != Keep ==> l.Entry?
    requires WellFormed(l)
    requires a.Rewrite? ==> l.value != a.newValue
    ensures Emit(l, a, now) == [l.text + "\n"] <==> a == Keep
  {
    if a.Rewrite? {
      RewriteDiffers(l, a.newValue);
      NewlineInjective(l.key + "=" + a.newValue, l.text);
    }
  }

  /** One more line: the output still equals the texts exactly when it did
      before and the new line is kept. */
  lemma {:induction false} UnchangedStep(ls: seq<Line>, n: nat, updates: Dict, keysToDelete: seq<string>, now: string)
    requires 0 < n <= |ls| && WellFormed(ls[n - 1])
    ensures Body(ls, n, updates, keysToDelete, now) == Texts(ls, n)
            <==> Body(ls, n - 1, updates, keysToDelete, now) == Texts(ls, n - 1)
                 && ActionAt(ls, n - 1, updates, keysToDelete) == Keep
  {
    var prev := Body(ls, n - 1, updates, keysToDelete, now);
    var seg := EmitAt(ls, n - 1, updates, keysToDelete, now);
    var l := ls[n - 1];
    BodyLength(ls, n - 1, updates, keysToDelete, now);
    EmitKeepsIff(l, ActionAt(ls, n - 1, updates, keysToDelete), now);
    assert Texts(ls, n) == Texts(ls, n - 1) + [l.text + "\n"];
    if prev + seg == Texts(ls, n) {
      assert |seg| == 1;
      assert prev == (prev + seg)[..n - 1];
    }
  }

  /** The output of the first `n` lines is their texts exactly when none of
      them is rewritten or commented out. */
  lemma {:induction false} BodyUnchangedIff(ls: seq<Line>, n: nat, updates: Dict, keysToDelete: seq<string>, now: string)
    requires n <= |ls|
    requires forall i :: 0 <= i < |ls| ==> WellFormed(ls[i])
    ensures Body(ls, n, updates, keysToDelete, now) == Texts(ls, n)
            <==> !AnyLineChanged(ls, n, updates, keysToDelete)
  {
    if n > 0 {
      BodyUnchangedIff(ls, n - 1, updates, keysToDelete, now);
      UnchangedStep(ls, n, updates, keysToDelete, now);
    }
  }

  /** The run reports `changed` exactly when what it writes differs from the
      file's lines stripped: no change is reported for a run that only
      normalises whitespace, and none is missed. */
  lemma {:induction false} ChangedIffDiffers(lines: seq<string>, updates: Dict, keysToDelete: seq<string>, now: string)
    ensures var o := Patch(lines, updates, keysToDelete, now);
      o.changed <==> o.written != StrippedLines(lines)
  {
    var ls := Parse(lines);
    ParseWellFormed(lines);
    ParsedTexts(lines);
    BodyUnchangedIff(ls, |ls|, updates, keysToDelete, now);
    BodyLength(ls, |ls|, updates, keysToDelete, now);
  }

  /** Two delete lists that agree on every entry line lead to the same
      output and the same flag. */
  lemma {:induction false} SameActionsSameRun(ls: seq<Line>, n: nat, updates: Dict, d1: seq<string>, d2: seq<string>, now: string)
    requires n <= |ls|
    requires forall i :: 0 <= i < |ls| && ls[i].Entry? ==> (ls[i].key in d1 <==> ls[i].key in d2)
    ensures Body(ls, n, updates, d1, now) == Body(ls, n, updates, d2, now)
    ensures AnyLineChanged(ls, n, updates, d1) == AnyLineChanged(ls, n, updates, d2)
  {
    if n > 0 {
      SameActionsSameRun(ls, n - 1, updates, d1, d2, now);
    }
  }

  /** A delete for a key that is on no entry line changes nothing: the run
      writes the same, reports the same and leaves the same updates. */
  lemma {:induction false} DeleteOfAbsentKeyIsNoOp(ls: seq<Line>, updates: Dict, keysToDelete: seq<string>, k: string, now: string)
    requires forall i :: 0 <= i < |ls| ==> !EntryWithKey(ls, i, k)
    ensures Run(ls, updates, keysToDelete + [k], now) == Run(ls, updates, keysToDelete, now)
  {
    forall i | 0 <= i < |ls| && ls[i].Entry?
      ensures ls[i].key in keysToDelete <==> ls[i].key in keysToDelete + [k]
    {
      assert !EntryWithKey(ls, i, k);
    }
    SameActionsSameRun(ls, |ls|, updates, keysToDelete, keysToDelete + [k], now);
  }

  /** With nothing to update or delete no line changes. */
  lemma {:induction false} NoActionWithoutRequest(ls: seq<Line>, n: nat)
    requires n <= |ls|
    ensures !AnyLineChanged(ls, n, [], [])
  {
    if n > 0 {
      NoActionWithoutRequest(ls, n - 1);
    }
  }

  /** A run with nothing to update or delete writes the file's lines stripped,
      reports no change and appends nothing. */
  lemma {:induction false} EmptyRequest(lines: seq<string>, now: string)
    ensures Patch(lines, [], [], now) == Outcome(StrippedLines(lines), false, [])
  {
    NoActionWithoutRequest(Parse(lines), |lines|);
    WithoutNothing([]);
    ChangedIffDiffers(lines, [], [], now);
  }

  /** Updating a key to the value its first entry line already has (after
      stripping the new value) is no change: the run writes the lines' texts,
      reports `changed == false` and appends nothing. */
  lemma {:induction false} MatchingUpdateIsNoOp(ls: seq<Line>, i: nat, k: string, v: string, now: string)
    requires i < |ls| && EntryWithKey(ls, i, k)
    requires forall j :: 0 <= j < i ==> !EntryWithKey(ls, j, k)
    requires ls[i].value == Strip(v)
    requires forall j :: 0 <= j < |ls| ==> WellFormed(ls[j])
    ensures Run(ls, [Item(k, v)], [], now) == Outcome(Texts(ls, |ls|), false, [])
  {
    var u: Dict := [Item(k, v)];
    assert Keys(u) == [k];
    forall j | 0 <= j < |ls| ensures ActionAt(ls, j, u, []) == Keep {
      if EntryWithKey(ls, j, k) {
        EntryKeysBeforeSpec(ls, j, k);
        if j > i {
          LaterOccurrenceNotUpdated(ls, i, j, k, u, []);
        } else {
          assert j == i;
        }
      }
    }
    AnyLineChangedSpec(ls, |ls|, u, []);
    EntryKeysBeforeSpec(ls, |ls|, k);
    WithoutKeys(u, EntryKeysBefore(ls, |ls|), k);
    assert Without(u, EntryKeysBefore(ls, |ls|)) == [];
    BodyUnchangedIff(ls, |ls|, u, [], now);
  }
}
