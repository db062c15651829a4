/**
 * The two string operations the lightbox applies to a figure before showing it:
 * `String.prototype.trim` and `String.prototype.replace` with a string pattern,
 * which replaces only the first occurrence.
 */
module Strings {
  import opened Wrappers

  /** The characters `trim` strips: ECMAScript WhiteSpace and LineTerminator code points. */
  predicate IsWhitespace(c: char) {
    || c == '\t' || c == '\U{000B}' || c == '\U{000C}' || c == ' ' || c == '\U{00A0}' || c == '\U{FEFF}'
    || c == '\U{1680}' || ('\U{2000}' <= c <= '\U{200A}') || c == '\U{202F}' || c == '\U{205F}'
    || c == '\U{3000}' || c == '\n' || c == '\r' || c == '\U{2028}' || c == '\U{2029}'
  }

  ghost predicate AllWhitespace(s: string) {
    forall k :: 0 <= k < |s| ==> IsWhitespace(s[k])
  }

  /** The number of leading whitespace characters. */
  function LeadingWhitespace(s: string): (n: nat)
    ensures n <= |s|
    ensures AllWhitespace(s[..n])
    ensures n < |s| ==> !IsWhitespace(s[n])
  {
    if s == [] || !IsWhitespace(s[0]) then 0
    else
      var m := LeadingWhitespace(s[1..]);
      assert s[1..][..m] == s[1..m + 1];
      1 + m
  }

  /** The number of trailing whitespace characters. */
  function TrailingWhitespace(s: string): (n: nat)
    ensures n <= |s|
    ensures AllWhitespace(s[|s| - n..])
    ensures n < |s| ==> !IsWhitespace(s[|s| - n - 1])
  {
    if s == [] || !IsWhitespace(s[|s| - 1]) then 0
    else
      var m := TrailingWhitespace(s[..|s| - 1]);
      assert s[..|s| - 1][|s| - 1 - m..] == s[|s| - 1 - m..|s| - 1];
      1 + m
  }

  /** `s.trim()`: `s` without its leading and trailing whitespace. */
  function Trim(s: string): (r: string)
    ensures |r| <= |s|
    ensures r == [] || (!IsWhitespace(r[0]) && !IsWhitespace(r[|r| - 1]))
  {
    var t := s[LeadingWhitespace(s)..];
    t[..|t| - TrailingWhitespace(t)]
  }

  /** Trimming cuts whitespace only: the result sits in `s` between two all-whitespace pieces. */
  lemma TrimCutsOnlyWhitespace(s: string) returns (a: nat, b: nat)
    ensures a <= b <= |s| && Trim(s) == s[a..b]
    ensures AllWhitespace(s[..a]) && AllWhitespace(s[b..])
  {
    a := LeadingWhitespace(s);
    var t := s[a..];
    var n := TrailingWhitespace(t);
    b := a + |t| - n;
    assert Trim(s) == t[..|t| - n];
    assert t[..|t| - n] == s[a..b];
    assert AllWhitespace(t[|t| - n..]);
    assert t[|t| - n..] == s[b..];
  }

  /** A caption made only of whitespace is shown as the empty string, and only then. */
  lemma WhitespaceOnlyTrimsToEmpty(s: string)
    ensures Trim(s) == [] <==> AllWhitespace(s)
  {
    var a := LeadingWhitespace(s);
    var t := s[a..];
    if a < |s| {
      assert t[0] == s[a] && !IsWhitespace(t[0]);
      assert TrailingWhitespace(t) < |t|;
    } else {
      assert s[..a] == s;
    }
  }

  /** Trimming twice is trimming once. */
  lemma TrimIdempotent(s: string)
    ensures Trim(Trim(s)) == Trim(s)
  {
    var r := Trim(s);
    if r != [] {
      assert LeadingWhitespace(r) == 0;
      assert TrailingWhitespace(r) == 0;
    }
  }

  /** `pat` occurs in `s` starting at index `i`. */
  predicate OccursAt(s: string, pat: string, i: nat) {
    i + |pat| <= |s| && s[i..i + |pat|] == pat
  }

  /** The first index at or after `from` where `pat` occurs, as `indexOf` searches. */
  function IndexOfFrom(s: string, pat: string, from: nat): (r: Option<nat>)
    requires from <= |s|
    decreases |s| - from
    ensures r.Some? ==> from <= r.value && OccursAt(s, pat, r.value)
    ensures r.Some? ==> forall j: nat :: from <= j < r.value ==> !OccursAt(s, pat, j)
    ensures r.None? ==> forall j: nat :: from <= j ==> !OccursAt(s, pat, j)
  {
    if OccursAt(s, pat, from) then Some(from)
    else if from == |s| then None
    else IndexOfFrom(s, pat, from + 1)
  }

  /** The first index where `pat` occurs in `s`, if any. */
  function IndexOf(s: string, pat: string): (r: Option<nat>)
    ensures r.Some? ==> OccursAt(s, pat, r.value) && forall j: nat :: j < r.value ==> !OccursAt(s, pat, j)
    ensures r.None? ==> forall j: nat :: !OccursAt(s, pat, j)
  {
    IndexOfFrom(s, pat, 0)
  }

  /** `s.replace(pat, '')`: the first occurrence of `pat` removed, wherever it is. */
  function RemoveFirst(s: string, pat: string): (r: string)
    ensures IndexOf(s, pat).None? ==> r == s
    ensures IndexOf(s, pat).Some? ==> |r| == |s| - |pat|
  {
    match IndexOf(s, pat)
    case None => s
    case Some(i) => s[..i] + s[i + |pat|..]
  }

  /** An occurrence at the very start is the one removed: a leading marker is stripped. */
  lemma RemoveFirstStripsPrefix(pat: string, t: string)
    ensures RemoveFirst(pat + t, pat) == t
  {
    assert OccursAt(pat + t, pat, 0);
  }

  /** Only the first of several occurrences goes; the rest of the text is kept in place. */
  lemma {:induction false} RemoveFirstKeepsLaterOccurrences(s: string, pat: string, i: nat)
    requires OccursAt(s, pat, i)
    requires forall j: nat :: j < i ==> !OccursAt(s, pat, j)
    ensures RemoveFirst(s, pat) == s[..i] + s[i + |pat|..]
  {
    assert IndexOf(s, pat) == Some(i);
  }
}
