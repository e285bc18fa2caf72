/**
 * The file system as the unpacker sees it: an ordered log of the operations it
 * performs, and the line splitting of File.ReadAllLines.
 */
module FileSystem {
  import opened Text

  datatype FileOp =
    | CreateDirectory(path: string)
    | WriteFile(path: string, contents: string)
    | CopyFile(source: string, destination: string)
    | DeleteFile(path: string)
    | MoveFile(source: string, destination: string)

  /** Directory, File: every call appends its operation to the log. */
  class FileSystem {
    var log: seq<FileOp>

    constructor ()
      ensures log == []
    {
      log := [];
    }

    method CreateDirectory(path: string)
      modifies this
      ensures log == old(log) + [FileOp.CreateDirectory(path)]
    {
      log := log + [FileOp.CreateDirectory(path)];
    }

    method WriteAllText(path: string, contents: string)
      modifies this
      ensures log == old(log) + [WriteFile(path, contents)]
    {
      log := log + [WriteFile(path, contents)];
    }

    /** File.Copy with overwrite */
    method Copy(source: string, destination: string)
      modifies this
      ensures log == old(log) + [CopyFile(source, destination)]
    {
      log := log + [CopyFile(source, destination)];
    }

    method Delete(path: string)
      modifies this
      ensures log == old(log) + [DeleteFile(path)]
    {
      log := log + [DeleteFile(path)];
    }

    method Move(source: string, destination: string)
      modifies this
      ensures log == old(log) + [MoveFile(source, destination)]
    {
      log := log + [MoveFile(source, destination)];
    }
  }

  predicate IsLineBreak(c: char) {
    c == '\r' || c == '\n'
  }

  predicate NoLineBreak(s: string) {
    forall k :: 0 <= k < |s| ==> !IsLineBreak(s[k])
  }

  /** The index of the first '\r' or '\n', or |s| if there is none. */
  function LineBreakIndex(s: string): (r: nat)
    ensures r <= |s| && NoLineBreak(s[..r])
    ensures r < |s| ==> IsLineBreak(s[r])
  {
    if s == [] then 0
    else if IsLineBreak(s[0]) then 0
    else
      var r := LineBreakIndex(s[1..]);
      assert s[..r + 1] == [s[0]] + s[1..][..r];
      r + 1
  }

  /**
   * File.ReadAllLines on the text of a file: lines end at "\r\n", "\r" or "\n",
   * and a terminator at the very end does not start another line.
   */
  function ReadLines(s: string): (lines: seq<string>)
    ensures forall i :: 0 <= i < |lines| ==> NoLineBreak(lines[i])
    ensures lines == [] <==> s == []
    decreases |s|
  {
    if s == [] then []
    else
      var e := LineBreakIndex(s);
      if e == |s| then [s]
      else
        var next := if s[e] == '\r' && e + 1 < |s| && s[e + 1] == '\n' then e + 2 else e + 1;
        [s[..e]] + ReadLines(s[next..])
  }

  /** The length of the line terminator that ends s: 2 for "\r\n", 1 for a lone break, else 0. */
  function TerminatorLength(s: string): nat {
    if EndsWith(s, "\r\n") then 2
    else if s != [] && IsLineBreak(s[|s| - 1]) then 1
    else 0
  }

  /** A file reads as exactly one line iff it is not empty and its only break ends it. */
  lemma SingleLineIff(s: string)
    ensures TerminatorLength(s) <= |s|
    ensures |ReadLines(s)| == 1 <==> s != [] && NoLineBreak(s[..|s| - TerminatorLength(s)])
  {
    TerminatorFacts(s);
    if s != [] {
      var e := LineBreakIndex(s);
      if e == |s| {
        SingleLineUnbroken(s);
      } else {
        var next := if s[e] == '\r' && e + 1 < |s| && s[e + 1] == '\n' then e + 2 else e + 1;
        assert ReadLines(s) == [s[..e]] + ReadLines(s[next..]);
        if next == |s| {
          SingleLineEndBreak(s, e);
        } else {
          SingleLineInnerBreak(s, e, next);
        }
      }
    }
  }

  /** What TerminatorLength says about the last one or two characters. */
  lemma TerminatorFacts(s: string)
    ensures TerminatorLength(s) <= |s|
    ensures TerminatorLength(s) == 2 <==> |s| >= 2 && s[|s| - 2] == '\r' && s[|s| - 1] == '\n'
    ensures TerminatorLength(s) == 0 <==> s == [] || !IsLineBreak(s[|s| - 1])
  {
    if |s| >= 2 && s[|s| - 2] == '\r' && s[|s| - 1] == '\n' {
      assert s[|s| - 2..] == "\r\n";
    }
  }

  lemma SingleLineUnbroken(s: string)
    requires s != [] && LineBreakIndex(s) == |s|
    ensures ReadLines(s) == [s] && TerminatorLength(s) == 0 && NoLineBreak(s)
  {
    assert s[..|s|] == s;
    TerminatorFacts(s);
  }

  lemma SingleLineEndBreak(s: string, e: nat)
    requires e == LineBreakIndex(s) < |s|
    requires (if s[e] == '\r' && e + 1 < |s| && s[e + 1] == '\n' then e + 2 else e + 1) == |s|
    ensures TerminatorLength(s) == |s| - e && NoLineBreak(s[..e])
  {
    TerminatorFacts(s);
    if e >= 1 {
      assert !IsLineBreak(s[..e][e - 1]);
    }
  }

  lemma SingleLineInnerBreak(s: string, e: nat, next: nat)
    requires e == LineBreakIndex(s) < |s|
    requires next == (if s[e] == '\r' && e + 1 < |s| && s[e + 1] == '\n' then e + 2 else e + 1) < |s|
    ensures |ReadLines(s)| >= 2 && !NoLineBreak(s[..|s| - TerminatorLength(s)])
  {
    TerminatorFacts(s);
    assert ReadLines(s) == [s[..e]] + ReadLines(s[next..]);
    assert e < |s| - TerminatorLength(s);
    assert s[..|s| - TerminatorLength(s)][e] == s[e];
  }

  lemma {:induction false} LineBreakIndexAfter(a: string, rest: string)
    requires NoLineBreak(a) && rest != [] && IsLineBreak(rest[0])
    ensures LineBreakIndex(a + rest) == |a|
    decreases |a|
  {
    if a != [] {
      assert (a + rest)[1..] == a[1..] + rest;
      LineBreakIndexAfter(a[1..], rest);
    }
  }

  /** A line without breaks followed by NewLine is read back as that line, then the rest. */
  lemma ReadLinesCons(a: string, b: string)
    requires NoLineBreak(a)
    ensures ReadLines(a + NewLine + b) == [a] + ReadLines(b)
  {
    var s := a + NewLine + b;
    LineBreakIndexAfter(a, NewLine + b);
    assert s == a + (NewLine + b);
    assert s[|a|] == '\r' && s[|a| + 1] == '\n';
    assert s[..|a|] == a && s[|a| + 2..] == b;
  }

  /** The one line of a single-line file is the file without its terminator. */
  lemma SingleLineContent(s: string)
    requires |ReadLines(s)| == 1
    ensures TerminatorLength(s) <= |s| && ReadLines(s)[0] == s[..|s| - TerminatorLength(s)]
  {
    SingleLineIff(s);
    var e := LineBreakIndex(s);
    var t := TerminatorLength(s);
    if e < |s| {
      var next := if s[e] == '\r' && e + 1 < |s| && s[e + 1] == '\n' then e + 2 else e + 1;
      assert ReadLines(s) == [s[..e]] + ReadLines(s[next..]);
      assert ReadLines(s[next..]) == [];
      assert t == |s| - e by {
        if e >= 1 { assert !IsLineBreak(s[..e][e - 1]); }
      }
    } else {
      assert s[..e] == s;
      assert !IsLineBreak(s[..e][|s| - 1]);
      assert t == 0;
    }
  }
}
