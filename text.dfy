/**
 * The .NET string operations the unpacker relies on, all comparing character by
 * character. That is what string.Contains, Replace, Split and IndexOf(char) do;
 * the one-argument StartsWith and EndsWith compare in the current culture in
 * .NET, which this ordinal version does not follow. Environment.NewLine is fixed
 * to the Windows value.
 */
module Text {
  import opened Wrappers

  const NewLine: string := "\r\n"

  /** Char.IsWhiteSpace: the Unicode separators and the ASCII/Latin-1 control blanks. */
  predicate IsWhiteSpace(c: char) {
    || c == ' ' || ('\t' <= c <= '\r') || c == '\U{85}' || c == '\U{A0}' || c == '\U{1680}'
    || ('\U{2000}' <= c <= '\U{200A}') || c == '\U{2028}' || c == '\U{2029}'
    || c == '\U{202F}' || c == '\U{205F}' || c == '\U{3000}'
  }

  /** string.IsNullOrWhiteSpace; None stands for a null reference. */
  predicate IsNullOrWhiteSpace(s: Option<string>) {
    s.None? || forall i :: 0 <= i < |s.value| ==> IsWhiteSpace(s.value[i])
  }

  /** string.IsNullOrEmpty */
  predicate IsNullOrEmpty(s: Option<string>) {
    s.None? || s.value == ""
  }

  predicate StartsWith(s: string, prefix: string) {
    |prefix| <= |s| && s[..|prefix|] == prefix
  }

  predicate EndsWith(s: string, suffix: string) {
    |suffix| <= |s| && s[|s| - |suffix|..] == suffix
  }

  /** pat occurs in s at index k */
  predicate OccursAt(s: string, pat: string, k: nat) {
    k + |pat| <= |s| && s[k..k + |pat|] == pat
  }

  /** string.TrimStart(): drops the leading white space. */
  function TrimStart(s: string): (r: string)
    ensures |r| <= |s| && r == s[|s| - |r|..]
    ensures forall i :: 0 <= i < |s| - |r| ==> IsWhiteSpace(s[i])
    ensures r == [] || !IsWhiteSpace(r[0])
  {
    if s != [] && IsWhiteSpace(s[0]) then TrimStart(s[1..]) else s
  }

  /** The first occurrence of pat in s at or after from, or -1. */
  function IndexOfFrom(s: string, pat: string, from: nat): (r: int)
    requires from <= |s|
    ensures r == -1 || (from <= r && OccursAt(s, pat, r))
    ensures r == -1 ==> forall k: nat :: from <= k ==> !OccursAt(s, pat, k)
    ensures r >= 0 ==> forall k: nat :: from <= k < r ==> !OccursAt(s, pat, k)
    decreases |s| - from
  {
    if from + |pat| > |s| then -1
    else if s[from..from + |pat|] == pat then from
    else IndexOfFrom(s, pat, from + 1)
  }

  /** string.IndexOf(string), ordinal */
  function IndexOf(s: string, pat: string): int {
    IndexOfFrom(s, pat, 0)
  }

  /** string.Contains(string) */
  predicate Contains(s: string, pat: string) {
    IndexOf(s, pat) >= 0
  }

  /** string.IndexOf(char): the first index holding c, or -1. */
  function IndexOfChar(s: string, c: char): (r: int)
    ensures -1 <= r < |s|
    ensures r >= 0 ==> s[r] == c && forall k :: 0 <= k < r ==> s[k] != c
    ensures r == -1 <==> forall k :: 0 <= k < |s| ==> s[k] != c
  {
    if s == [] then -1
    else if s[0] == c then 0
    else var r := IndexOfChar(s[1..], c); if r < 0 then -1 else r + 1
  }

  /** new string(' ', n) */
  function Spaces(n: nat): (r: string)
    ensures |r| == n && forall i :: 0 <= i < n ==> r[i] == ' '
  {
    if n == 0 then [] else [' '] + Spaces(n - 1)
  }

  /** ASCII part of string.ToLower() */
  function ToLowerAscii(s: string): (r: string)
    ensures |r| == |s|
  {
    seq(|s|, i requires 0 <= i < |s| => if 'A' <= s[i] <= 'Z' then (s[i] as int + 32) as char else s[i])
  }

  lemma NoOccurrenceInPrefix(s: string, pat: string, p: nat)
    requires p <= |s| && |pat| > 0
    requires forall k: nat :: k < p ==> !OccursAt(s, pat, k)
    ensures !Contains(s[..p], pat)
  {
    if Contains(s[..p], pat) {
      var k := IndexOf(s[..p], pat);
      assert s[..p][k..k + |pat|] == s[k..k + |pat|];
      assert OccursAt(s, pat, k);
    }
  }

  /** string.Split(string): the pieces between the non-overlapping occurrences of sep, left to right. */
  function Split(s: string, sep: string): (parts: seq<string>)
    requires |sep| > 0
    ensures |parts| >= 1
    ensures forall i :: 0 <= i < |parts| ==> !Contains(parts[i], sep)
    decreases |s|
  {
    var p := IndexOf(s, sep);
    if p < 0 then [s]
    else
      NoOccurrenceInPrefix(s, sep, p);
      [s[..p]] + Split(s[p + |sep|..], sep)
  }

  /** string.Join(string, IEnumerable<string>) */
  function Join(sep: string, parts: seq<string>): string {
    if |parts| == 0 then ""
    else if |parts| == 1 then parts[0]
    else parts[0] + sep + Join(sep, parts[1..])
  }

  lemma JoinCons(sep: string, x: string, rest: seq<string>)
    requires |rest| >= 1
    ensures Join(sep, [x] + rest) == x + sep + Join(sep, rest)
  {
    assert ([x] + rest)[1..] == rest;
  }

  /** Joining the pieces of a split with the same separator gives back the text. */
  lemma {:induction false} JoinSplit(s: string, sep: string)
    requires |sep| > 0
    ensures Join(sep, Split(s, sep)) == s
    decreases |s|
  {
    var p := IndexOf(s, sep);
    if p >= 0 {
      var rest := s[p + |sep|..];
      JoinSplit(rest, sep);
      SplitAt(s, sep, p);
      JoinCons(sep, s[..p], Split(rest, sep));
    }
  }

  /** The first piece of a split ends at the first occurrence of the separator. */
  lemma SplitAt(s: string, sep: string, p: nat)
    requires |sep| > 0 && p == IndexOf(s, sep)
    ensures p + |sep| <= |s| && s == s[..p] + sep + s[p + |sep|..]
    ensures Split(s, sep) == [s[..p]] + Split(s[p + |sep|..], sep)
  {
    assert OccursAt(s, sep, p);
  }

  /** string.Replace(string, string): every non-overlapping occurrence, left to right. */
  function Replace(s: string, pat: string, rep: string): string
    requires |pat| > 0
    decreases |s|
  {
    if StartsWith(s, pat) then rep + Replace(s[|pat|..], pat, rep)
    else if s == [] then []
    else [s[0]] + Replace(s[1..], pat, rep)
  }

  /** A text without the pattern is left as it is. */
  lemma {:induction false} ReplaceAbsent(s: string, pat: string, rep: string)
    requires |pat| > 0 && !Contains(s, pat)
    ensures Replace(s, pat, rep) == s
    decreases |s|
  {
    assert !OccursAt(s, pat, 0);
    if s != [] {
      if Contains(s[1..], pat) {
        var k := IndexOf(s[1..], pat);
        assert s[1..][k..k + |pat|] == s[k + 1..k + 1 + |pat|];
        assert OccursAt(s, pat, k + 1);
      }
      ReplaceAbsent(s[1..], pat, rep);
    }
  }

  /** Replacing a pattern by itself changes nothing. */
  lemma {:induction false} ReplaceSelf(s: string, pat: string)
    requires |pat| > 0
    ensures Replace(s, pat, pat) == s
    decreases |s|
  {
    if StartsWith(s, pat) {
      ReplaceSelf(s[|pat|..], pat);
      assert s == pat + s[|pat|..];
    } else if s != [] {
      ReplaceSelf(s[1..], pat);
      assert s == [s[0]] + s[1..];
    }
  }

  /** Replace copies the text before the first occurrence unchanged. */
  lemma {:induction false} ReplaceBefore(s: string, pat: string, rep: string, p: nat)
    requires |pat| > 0 && p <= |s|
    requires forall k: nat :: k < p ==> !OccursAt(s, pat, k)
    ensures Replace(s, pat, rep) == s[..p] + Replace(s[p..], pat, rep)
    decreases p
  {
    if p > 0 {
      assert !OccursAt(s, pat, 0);
      var tail := s[1..];
      forall k: nat | k < p - 1 ensures !OccursAt(tail, pat, k) {
        if OccursAt(tail, pat, k) {
          OccursInTail(s, pat, k);
        }
      }
      ReplaceBefore(tail, pat, rep, p - 1);
      ReplaceStep(s, pat, rep, p);
    } else {
      assert s[..0] + s[0..] == s;
    }
  }

  lemma OccursInTail(s: string, pat: string, k: nat)
    requires s != [] && OccursAt(s[1..], pat, k)
    ensures OccursAt(s, pat, k + 1)
  {
    assert s[1..][k..k + |pat|] == s[k + 1..k + 1 + |pat|];
  }

  lemma ReplaceStep(s: string, pat: string, rep: string, p: nat)
    requires |pat| > 0 && 0 < p <= |s| && !OccursAt(s, pat, 0)
    requires Replace(s[1..], pat, rep) == s[1..][..p - 1] + Replace(s[1..][p - 1..], pat, rep)
    ensures Replace(s, pat, rep) == s[..p] + Replace(s[p..], pat, rep)
  {
    var tail := s[1..];
    assert Replace(s, pat, rep) == [s[0]] + Replace(tail, pat, rep);
    assert [s[0]] + tail[..p - 1] == s[..p];
    assert tail[p - 1..] == s[p..];
  }

  /** string.Replace agrees with splitting at the pattern and joining with the replacement. */
  lemma {:induction false} ReplaceIsSplitJoin(s: string, pat: string, rep: string)
    requires |pat| > 0
    ensures Replace(s, pat, rep) == Join(rep, Split(s, pat))
    decreases |s|
  {
    var p := IndexOf(s, pat);
    if p < 0 {
      ReplaceAbsent(s, pat, rep);
    } else {
      var rest := s[p + |pat|..];
      SplitAt(s, pat, p);
      ReplaceBefore(s, pat, rep, p);
      var at := s[p..];
      assert StartsWith(at, pat) && at[|pat|..] == rest;
      ReplaceIsSplitJoin(rest, pat, rep);
      JoinCons(rep, s[..p], Split(rest, pat));
    }
  }
}
