/**
 * System.IO.Path as it behaves on Windows (the platform whose NewLine the
 * unpacker assumes): '\' is the separator, '/' the alternative one.
 */
module Paths {
  import opened Text

  const DirectorySeparator: char := '\\'

  predicate IsDirectorySeparator(c: char) {
    c == '\\' || c == '/'
  }

  predicate NoSeparator(s: string) {
    forall i :: 0 <= i < |s| ==> !IsDirectorySeparator(s[i])
  }

  /** Path.IsPathRooted: a leading separator, or a drive letter and a colon. */
  predicate IsPathRooted(p: string) {
    || (|p| >= 1 && IsDirectorySeparator(p[0]))
    || (|p| >= 2 && p[1] == ':' && (('a' <= p[0] <= 'z') || ('A' <= p[0] <= 'Z')))
  }

  /** The concatenation shared by Path.Join and Path.Combine: one separator between the parts. */
  function JoinParts(first: string, second: string): string
    requires |first| > 0 && |second| > 0
  {
    if IsDirectorySeparator(first[|first| - 1]) || IsDirectorySeparator(second[0]) then first + second
    else first + [DirectorySeparator] + second
  }

  /** Path.Join(string, string) */
  function PathJoin(first: string, second: string): string {
    if first == "" then second
    else if second == "" then first
    else JoinParts(first, second)
  }

  /** Path.Combine(string, string): like Join, except that a rooted second part wins. */
  function PathCombine(first: string, second: string): string {
    if first == "" then second
    else if second == "" then first
    else if IsPathRooted(second) then second
    else JoinParts(first, second)
  }

  /** The index of the last separator before index i, or -1. */
  function LastSeparatorBefore(p: string, i: nat): (r: int)
    requires i <= |p|
    ensures -1 <= r < i
    ensures r >= 0 ==> IsDirectorySeparator(p[r])
    ensures forall k :: r < k < i ==> !IsDirectorySeparator(p[k])
    decreases i
  {
    if i == 0 then -1
    else if IsDirectorySeparator(p[i - 1]) then i - 1
    else LastSeparatorBefore(p, i - 1)
  }

  /** Path.GetFileName: what follows the last separator (drive and UNC roots are not modelled). */
  function GetFileName(p: string): (r: string)
    ensures EndsWith(p, r) && NoSeparator(r)
    ensures |r| < |p| ==> IsDirectorySeparator(p[|p| - |r| - 1])
    decreases |p|
  {
    if p == [] || IsDirectorySeparator(p[|p| - 1]) then []
    else GetFileName(p[..|p| - 1]) + [p[|p| - 1]]
  }

  /** Path.GetExtension: from the last '.' after the last separator; empty when that '.' ends the path. */
  function GetExtension(p: string): (e: string)
    ensures e == [] || IsExtension(e)
    ensures EndsWith(p, e)
  {
    ExtensionBefore(p, |p|)
  }

  /** A non-empty extension: a '.', then at least one character, neither '.' nor a separator. */
  predicate IsExtension(e: string) {
    |e| >= 2 && e[0] == '.' && forall i :: 1 <= i < |e| ==> e[i] != '.' && !IsDirectorySeparator(e[i])
  }

  function ExtensionBefore(p: string, i: nat): (e: string)
    requires i <= |p|
    requires forall k :: i <= k < |p| ==> p[k] != '.' && !IsDirectorySeparator(p[k])
    ensures e == [] || IsExtension(e)
    ensures EndsWith(p, e)
    decreases i
  {
    if i == 0 then []
    else if p[i - 1] == '.' then (if i == |p| then [] else p[i - 1..])
    else if IsDirectorySeparator(p[i - 1]) then []
    else ExtensionBefore(p, i - 1)
  }

  /** A path ending in an extension reports exactly that extension. */
  lemma ExtensionOfSuffix(base: string, e: string)
    requires IsExtension(e)
    ensures GetExtension(base + e) == e
  {
    ExtensionBeforeSuffix(base, e, |base + e|);
  }

  /** Scanning back from any index inside the extension finds its '.'. */
  lemma {:induction false} ExtensionBeforeSuffix(base: string, e: string, i: nat)
    requires IsExtension(e) && |base| + 1 <= i <= |base + e|
    ensures forall k :: i <= k < |base + e| ==> (base + e)[k] != '.' && !IsDirectorySeparator((base + e)[k])
    ensures ExtensionBefore(base + e, i) == e
    decreases i
  {
    var p := base + e;
    assert forall k :: |base| <= k < |p| ==> p[k] == e[k - |base|];
    if i > |base| + 1 {
      ExtensionBeforeSuffix(base, e, i - 1);
    } else {
      assert p[|base|..] == e;
    }
  }

  /** A path without '.' after its last separator has no extension. */
  lemma NoDotNoExtension(p: string)
    requires forall k :: 0 <= k < |p| ==> p[k] != '.' && !IsDirectorySeparator(p[k])
    ensures GetExtension(p) == []
  {
    NoDotBefore(p, |p|);
  }

  lemma {:induction false} NoDotBefore(p: string, i: nat)
    requires i <= |p| && forall k :: 0 <= k < |p| ==> p[k] != '.' && !IsDirectorySeparator(p[k])
    ensures ExtensionBefore(p, i) == []
    decreases i
  {
    if i > 0 {
      NoDotBefore(p, i - 1);
    }
  }

  /** A directory combined from a parent and a plain name is named after that name. */
  lemma FileNameOfCombined(parent: string, name: string)
    requires name != "" && NoSeparator(name)
    ensures GetFileName(PathCombine(parent, name)) == name
  {
    var p := PathCombine(parent, name);
    if parent == "" || IsPathRooted(name) {
      assert p == name;
    } else if IsDirectorySeparator(parent[|parent| - 1]) {
      assert p == parent + name;
      assert p[|p| - |name| - 1] == parent[|parent| - 1];
    } else {
      assert p == parent + [DirectorySeparator] + name;
      assert p[|p| - |name| - 1] == DirectorySeparator;
    }
    FileNameOfSuffix(p, name);
  }

  lemma {:induction false} FileNameOfSuffix(p: string, name: string)
    requires EndsWith(p, name) && NoSeparator(name)
    requires |name| < |p| ==> IsDirectorySeparator(p[|p| - |name| - 1])
    ensures GetFileName(p) == name
    decreases |p|
  {
    if name != [] {
      var p', name' := p[..|p| - 1], name[..|name| - 1];
      assert p[|p| - 1] == name[|name| - 1];
      assert p'[|p'| - |name'|..] == name';
      if |name'| < |p'| {
        assert p'[|p'| - |name'| - 1] == p[|p| - |name| - 1];
      }
      FileNameOfSuffix(p', name');
      assert name == name' + [name[|name| - 1]];
    }
  }

  /**
   * Path.GetDirectoryName: everything before the last separator, "" when there is none
   * (roots, repeated separators and separator normalisation are not modelled).
   */
  function DirectoryName(p: string): (d: string)
    ensures StartsWith(p, d)
  {
    var k := LastSeparatorBefore(p, |p|);
    if k < 0 then "" else p[..k]
  }

  /** The index of the last '.' before index i, or -1. */
  function LastDotBefore(s: string, i: nat): (r: int)
    requires i <= |s|
    ensures -1 <= r < i
    ensures r >= 0 ==> s[r] == '.'
    ensures forall k :: r < k < i ==> s[k] != '.'
    decreases i
  {
    if i == 0 then -1
    else if s[i - 1] == '.' then i - 1
    else LastDotBefore(s, i - 1)
  }

  /** Path.GetFileNameWithoutExtension: the file name up to its last '.'. */
  function FileNameWithoutExtension(p: string): (r: string)
    ensures StartsWith(GetFileName(p), r)
  {
    var name := GetFileName(p);
    var k := LastDotBefore(name, |name|);
    if k < 0 then name else name[..k]
  }

  /**
   * Appending to a non-empty second part commutes with Path.Combine, unless the
   * appended ':' makes a drive name of a one-letter second part.
   */
  lemma CombineAppend(first: string, second: string, suffix: string)
    requires second != "" && (suffix == "" || suffix[0] != ':')
    ensures PathCombine(first, second) + suffix == PathCombine(first, second + suffix)
  {
    var s := second + suffix;
    assert s[0] == second[0];
    if |second| >= 2 {
      assert s[1] == second[1];
    }
  }

  /** Taking the name without extension of name + extension gives name back. */
  lemma StripLastDot(name: string, ext: string)
    requires |ext| > 0 && ext[0] == '.' && forall k :: 1 <= k < |ext| ==> ext[k] != '.'
    ensures LastDotBefore(name + ext, |name + ext|) == |name|
  {
    LastDotInSuffix(name, ext, |name + ext|);
  }

  lemma {:induction false} LastDotInSuffix(name: string, ext: string, i: nat)
    requires |ext| > 0 && ext[0] == '.' && forall k :: 1 <= k < |ext| ==> ext[k] != '.'
    requires |name| + 1 <= i <= |name + ext|
    ensures LastDotBefore(name + ext, i) == |name|
    decreases i
  {
    var s := name + ext;
    assert s[i - 1] == ext[i - 1 - |name|];
    if i > |name| + 1 {
      LastDotInSuffix(name, ext, i - 1);
    }
  }
}
