/** The few Python `str` operations the FIPS entitlement relies on:
    `endswith`, `replace`, `splitlines` and `" ".join`. */
module PyText {

  /** `s.endswith(suffix)`. */
  predicate EndsWith(s: string, suffix: string) {
    |suffix| <= |s| && s[|s| - |suffix|..] == suffix
  }

  /** `pat` occurs in `s` starting at index `i`. */
  predicate OccursAt(s: string, pat: string, i: nat) {
    i + |pat| <= |s| && s[i..i + |pat|] == pat
  }

  /** `s[i:].replace(pat, rep)`: scan left to right, replacing each
      non-overlapping occurrence. An empty `pat` matches before every
      character and once at the end, as in Python. */
  function ReplaceFrom(s: string, pat: string, rep: string, i: nat): (r: string)
    requires i <= |s|
    ensures |pat| > 0 && (forall k :: i <= k < |s| ==> !OccursAt(s, pat, k)) ==> r == s[i..]
    decreases |s| - i
  {
    if |pat| == 0 then
      if i == |s| then rep else rep + [s[i]] + ReplaceFrom(s, pat, rep, i + 1)
    else if |s| - i < |pat| then s[i..]
    else if OccursAt(s, pat, i) then rep + ReplaceFrom(s, pat, rep, i + |pat|)
    else
      assert [s[i]] + s[i + 1..] == s[i..];
      [s[i]] + ReplaceFrom(s, pat, rep, i + 1)
  }

  /** `s.replace(pat, rep)`. A string in which a non-empty `pat` never
      occurs comes back unchanged. */
  function Replace(s: string, pat: string, rep: string): (r: string)
    ensures |pat| > 0 && (forall k :: 0 <= k < |s| ==> !OccursAt(s, pat, k)) ==> r == s
  {
    ReplaceFrom(s, pat, rep, 0)
  }

  /** Too short a tail for a non-empty `pat` is copied as is. */
  lemma ReplaceFromShort(s: string, pat: string, rep: string, i: nat)
    requires |pat| > 0 && i <= |s| && |s| - i < |pat|
    ensures ReplaceFrom(s, pat, rep, i) == s[i..]
  {
  }

  /** A position where a non-empty `pat` does not start is copied as is. */
  lemma ReplaceFromCopy(s: string, pat: string, rep: string, i: nat)
    requires |pat| > 0 && i < |s| && !OccursAt(s, pat, i)
    ensures ReplaceFrom(s, pat, rep, i) == [s[i]] + ReplaceFrom(s, pat, rep, i + 1)
  {
  }

  /** Positions where `pat` does not start are copied through unchanged. */
  lemma {:induction false} ReplaceSkips(s: string, pat: string, rep: string, i: nat, j: nat)
    requires |pat| > 0
    requires i <= j <= |s|
    requires forall k :: i <= k < j ==> !OccursAt(s, pat, k)
    ensures ReplaceFrom(s, pat, rep, i) == s[i..j] + ReplaceFrom(s, pat, rep, j)
    decreases j - i
  {
    if i < j {
      if |s| - i < |pat| {
        ReplaceShortSplit(s, pat, rep, i, j);
      } else {
        ReplaceFromCopy(s, pat, rep, i);
        ReplaceSkips(s, pat, rep, i + 1, j);
        ConsSlice(s, ReplaceFrom(s, pat, rep, j), i, j);
      }
    }
  }

  /** A too-short tail splits at any index. */
  lemma ReplaceShortSplit(s: string, pat: string, rep: string, i: nat, j: nat)
    requires |pat| > 0 && i <= j <= |s| && |s| - i < |pat|
    ensures ReplaceFrom(s, pat, rep, i) == s[i..j] + ReplaceFrom(s, pat, rep, j)
  {
    ReplaceFromShort(s, pat, rep, i);
    ReplaceFromShort(s, pat, rep, j);
    assert s[i..] == s[i..j] + s[j..];
  }

  /** Consing `s[i]` onto the rest of a slice gives the slice. */
  lemma ConsSlice(s: string, tail: string, i: nat, j: nat)
    requires i < j <= |s|
    ensures [s[i]] + (s[i + 1..j] + tail) == s[i..j] + tail
  {
    assert [s[i]] + s[i + 1..j] == s[i..j];
  }

  /** "-hmac" cannot start where the character two places on is not 'm'. */
  lemma NoHmacAt(s: string, k: nat)
    requires k + 2 < |s| && s[k + 2] != 'm'
    ensures !OccursAt(s, "-hmac", k)
  {
    if k + 5 <= |s| {
      assert s[k..k + 5][2] == s[k + 2];
    }
  }

  /** The package-group key `name.replace("-hmac", "")` maps both a root name
      and its `-hmac` companion back to the root, provided the root contains
      no 'm' (so no occurrence of "-hmac" can start inside it). */
  lemma StripHmac(root: string)
    requires 'm' !in root
    ensures Replace(root, "-hmac", "") == root
    ensures Replace(root + "-hmac", "-hmac", "") == root
  {
    StripHmacRoot(root);
    StripHmacCompanion(root);
  }

  /** A root with no 'm' is its own key. */
  lemma StripHmacRoot(root: string)
    requires 'm' !in root
    ensures Replace(root, "-hmac", "") == root
  {
    forall k | 0 <= k < |root|
      ensures !OccursAt(root, "-hmac", k)
    {
      if k + 2 < |root| {
        assert root[k + 2] in root;
        NoHmacAt(root, k);
      }
    }
  }

  /** The `-hmac` companion of a root with no 'm' has the root as key. */
  lemma StripHmacCompanion(root: string)
    requires 'm' !in root
    ensures Replace(root + "-hmac", "-hmac", "") == root
  {
    var s := root + "-hmac";
    NoHmacBeforeSuffix(root);
    ReplaceSkips(s, "-hmac", "", 0, |root|);
    assert s[0..|root|] == root;
    ReplaceSuffix(root, "-hmac", "");
  }

  /** In a root with no 'm' followed by "-hmac", no occurrence of "-hmac"
      starts inside the root. */
  lemma NoHmacBeforeSuffix(root: string)
    requires 'm' !in root
    ensures forall k :: 0 <= k < |root| ==> !OccursAt(root + "-hmac", "-hmac", k)
  {
    var pat := "-hmac";
    var s := root + pat;
    forall k | 0 <= k < |root|
      ensures !OccursAt(s, pat, k)
    {
      if k + 2 < |root| {
        assert s[k + 2] == root[k + 2] && root[k + 2] in root;
      } else {
        assert s[k + 2] == pat[k + 2 - |root|];
      }
      NoHmacAt(s, k);
    }
  }

  /** A trailing occurrence of a non-empty `pat` is replaced by `rep`. */
  lemma ReplaceSuffix(t: string, pat: string, rep: string)
    requires |pat| > 0
    ensures ReplaceFrom(t + pat, pat, rep, |t|) == rep
  {
    var s := t + pat;
    assert s[|t|..|t| + |pat|] == pat;
    ReplaceFromMatch(s, pat, rep, |t|);
    ReplaceFromShort(s, pat, rep, |s|);
    assert rep + s[|s|..] == rep;
  }

  /** An occurrence of a non-empty `pat` at `i` is replaced by `rep`. */
  lemma ReplaceFromMatch(s: string, pat: string, rep: string, i: nat)
    requires |pat| > 0 && OccursAt(s, pat, i)
    ensures ReplaceFrom(s, pat, rep, i) == rep + ReplaceFrom(s, pat, rep, i + |pat|)
  {
  }

  /** The line boundaries of Python's `str.splitlines`. */
  predicate IsLineBoundary(c: char) {
    || c == '\n' || c == '\r'
    || c == '\U{0B}' || c == '\U{0C}'
    || c == '\U{1C}' || c == '\U{1D}' || c == '\U{1E}'
    || c == '\U{85}' || c == '\U{2028}' || c == '\U{2029}'
  }

  /** A string with no line boundary in it: one line of text. */
  predicate IsLine(l: string) {
    forall k :: 0 <= k < |l| ==> !IsLineBoundary(l[k])
  }

  /** Index of the first line boundary at or after `i`, or `|s|` if none. */
  function FirstBoundary(s: string, i: nat): (j: nat)
    requires i <= |s|
    ensures i <= j <= |s|
    ensures j < |s| ==> IsLineBoundary(s[j])
    ensures forall k :: i <= k < j ==> !IsLineBoundary(s[k])
    decreases |s| - i
  {
    if i == |s| || IsLineBoundary(s[i]) then i else FirstBoundary(s, i + 1)
  }

  /** `s.splitlines()`: the lines of `s` without their terminators; "\r\n"
      counts as one terminator, and a final terminator does not start an
      empty last line. */
  function SplitLines(s: string): (lines: seq<string>)
    ensures forall i :: 0 <= i < |lines| ==> IsLine(lines[i])
    ensures |s| > 0 && IsLine(s) ==> lines == [s]
    decreases |s|
  {
    if |s| == 0 then []
    else
      var j := FirstBoundary(s, 0);
      if j == |s| then [s]
      else
        var width := if s[j] == '\r' && j + 1 < |s| && s[j + 1] == '\n' then 2 else 1;
        [s[..j]] + SplitLines(s[j + width..])
  }

  /** Lines each followed by "\n", as a command prints them. */
  function Terminated(lines: seq<string>): string {
    if |lines| == 0 then "" else lines[0] + "\n" + Terminated(lines[1..])
  }

  /** `splitlines` recovers the lines of newline-terminated output. */
  lemma {:induction false} SplitLinesTerminated(lines: seq<string>)
    requires forall i :: 0 <= i < |lines| ==> IsLine(lines[i])
    ensures SplitLines(Terminated(lines)) == lines
  {
    if |lines| > 0 {
      SplitLinesCons(lines[0], Terminated(lines[1..]));
      SplitLinesTerminated(lines[1..]);
      assert lines == [lines[0]] + lines[1..];
    }
  }

  /** A line followed by "\n" is split off as the first line. */
  lemma SplitLinesCons(l: string, rest: string)
    requires IsLine(l)
    ensures SplitLines(l + "\n" + rest) == [l] + SplitLines(rest)
  {
    var s := l + "\n" + rest;
    assert forall k :: 0 <= k < |l| ==> s[k] == l[k];
    assert s[|l|] == '\n';
    FirstBoundaryAt(s, |l|);
    assert s[..|l|] == l;
    assert s[|l| + 1..] == rest;
  }

  /** The first boundary is found where the text before it has none. */
  lemma FirstBoundaryAt(s: string, j: nat)
    requires j < |s| && IsLineBoundary(s[j])
    requires forall k :: 0 <= k < j ==> !IsLineBoundary(s[k])
    ensures FirstBoundary(s, 0) == j
  {
  }

  /** `sep.join(parts)`. */
  function Join(sep: string, parts: seq<string>): string {
    if |parts| == 0 then ""
    else if |parts| == 1 then parts[0]
    else parts[0] + sep + Join(sep, parts[1..])
  }
}
