/** The few Python `str` operations the properties editor relies on:
    `isspace` (the characters `strip()` removes), `strip()`, `startswith`
    and the position of the first separator that `split(sep, 1)` cuts at.

    The functions carry only the bounds their callers need; what they mean
    is stated by the lemmas beside them. */
module Text {

  /** Python's `str.isspace()` on one character: U+0009..U+000D, U+001C..U+0020,
      U+0085, U+00A0, U+1680, U+2000..U+200A, U+2028, U+2029, U+202F, U+205F
      and U+3000. These are exactly the characters `str.strip()` removes. */
  predicate IsSpace(c: char) {
    || ('\t' <= c <= '\r')
    || ('\U{1C}' <= c <= ' ')
    || c == '\U{85}' || c == '\U{A0}' || c == '\U{1680}'
    || ('\U{2000}' <= c <= '\U{200A}')
    || c == '\U{2028}' || c == '\U{2029}' || c == '\U{202F}' || c == '\U{205F}' || c == '\U{3000}'
  }

  /** Neither end of `s` is a space character, so `strip()` leaves it alone. */
  predicate IsStripped(s: string) {
    s == [] || (!IsSpace(s[0]) && !IsSpace(s[|s| - 1]))
  }

  /** The first index at or after `i` that does not hold a space. */
  function SkipSpaces(s: string, i: nat): (j: nat)
    requires i <= |s|
    ensures i <= j <= |s|
    decreases |s| - i
  {
    if i < |s| && IsSpace(s[i]) then SkipSpaces(s, i + 1) else i
  }

  lemma {:induction false} SkipSpacesSpec(s: string, i: nat)
    requires i <= |s|
    ensures forall k :: i <= k < SkipSpaces(s, i) ==> IsSpace(s[k])
    ensures SkipSpaces(s, i) < |s| ==> !IsSpace(s[SkipSpaces(s, i)])
    decreases |s| - i
  {
    if i < |s| && IsSpace(s[i]) {
      SkipSpacesSpec(s, i + 1);
    }
  }

  /** Walking back from `j` but not past `lo`: the end of the text once the
      spaces right before `j` are dropped. */
  function SkipSpacesBack(s: string, lo: nat, j: nat): (e: nat)
    requires lo <= j <= |s|
    ensures lo <= e <= j
  {
    if lo < j && IsSpace(s[j - 1]) then SkipSpacesBack(s, lo, j - 1) else j
  }

  lemma {:induction false} SkipSpacesBackSpec(s: string, lo: nat, j: nat)
    requires lo <= j <= |s|
    ensures forall k :: SkipSpacesBack(s, lo, j) <= k < j ==> IsSpace(s[k])
    ensures lo < SkipSpacesBack(s, lo, j) ==> !IsSpace(s[SkipSpacesBack(s, lo, j) - 1])
  {
    if lo < j && IsSpace(s[j - 1]) {
      SkipSpacesBackSpec(s, lo, j - 1);
    }
  }

  /** Where the text kept by `strip()` begins. */
  function StripStart(s: string): (i: nat)
    ensures i <= |s|
  {
    SkipSpaces(s, 0)
  }

  /** Where the text kept by `strip()` ends (exclusive). */
  function StripEnd(s: string): (e: nat)
    ensures StripStart(s) <= e <= |s|
  {
    SkipSpacesBack(s, StripStart(s), |s|)
  }

  /** Python's `s.strip()`: the middle part of `s`. */
  function Strip(s: string): string {
    s[StripStart(s)..StripEnd(s)]
  }

  /** What `strip()` keeps neither starts nor ends with a space, and
      everything it cuts away on either side is space. */
  lemma {:induction false} StripSpec(s: string)
    ensures IsStripped(Strip(s))
    ensures forall k :: 0 <= k < StripStart(s) ==> IsSpace(s[k])
    ensures forall k :: StripEnd(s) <= k < |s| ==> IsSpace(s[k])
  {
    SkipSpacesSpec(s, 0);
    SkipSpacesBackSpec(s, StripStart(s), |s|);
  }

  /** Stripping text that has no surrounding spaces gives it back unchanged;
      with `StripSpec`, `strip()` is idempotent. */
  lemma {:induction false} StripStripped(s: string)
    requires IsStripped(s)
    ensures Strip(s) == s
  {
    SkipSpacesSpec(s, 0);
    SkipSpacesBackSpec(s, StripStart(s), |s|);
  }

  /** Python's `s.startswith(p)`. */
  predicate StartsWith(s: string, p: string) {
    |p| <= |s| && s[..|p|] == p
  }

  /** The index of the first `c` in `s`: where `s.split(c, 1)` cuts. */
  function IndexOf(s: string, c: char): (i: nat)
    requires c in s
    ensures i < |s|
  {
    if s[0] == c then 0 else IndexOf(s[1..], c) + 1
  }

  /** `IndexOf` finds `c`, and no `c` comes before it. */
  lemma {:induction false} IndexOfSpec(s: string, c: char)
    requires c in s
    ensures s[IndexOf(s, c)] == c
    ensures c !in s[..IndexOf(s, c)]
  {
    if s[0] != c {
      IndexOfSpec(s[1..], c);
      var j := IndexOf(s[1..], c);
      assert s[..j + 1] == [s[0]] + s[1..][..j];
    }
  }

  /** The character at `a` is among the first `b > a` characters. */
  lemma {:induction false} PrefixHas(s: string, a: nat, b: nat)
    requires a < b <= |s|
    ensures s[a] in s[..b]
  {
    assert s[..b][a] == s[a];
  }

  /** A text has only one first occurrence of `c`. */
  lemma {:induction false} FirstOccurrenceUnique(s: string, c: char, a: nat, b: nat)
    requires a < |s| && s[a] == c && c !in s[..a]
    requires b < |s| && s[b] == c && c !in s[..b]
    ensures a == b
  {
    if a < b {
      PrefixHas(s, a, b);
    } else if b < a {
      PrefixHas(s, b, a);
    }
  }

  /** Two texts that are equal once a newline is added to each are equal. */
  lemma {:induction false} NewlineInjective(x: string, y: string)
    ensures x + "\n" == y + "\n" ==> x == y
  {
    assert (x + "\n")[..|x|] == x;
    assert (y + "\n")[..|y|] == y;
  }
}
