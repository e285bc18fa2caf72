/**
 * FixSerializationExceptions: the serializer drops the "TemplateDisplayName": null
 * entry that the source format always carries after a "DynamicControlDefinitionJson"
 * entry, so the reserialized text gets that line put back before the comparison.
 */
module QuirkFixer {
  import opened Wrappers
  import opened Text

  const Marker: string := "\"DynamicControlDefinitionJson\": "
  const Companion: string := "\"TemplateDisplayName\": null,"

  /**
   * The two ways the insertion throws (ArgumentOutOfRangeException): the marker
   * line is the last line, or the next line has no '"' to take the indentation from.
   */
  datatype QuirkError = MarkerOnLastLine | NoQuoteAfterMarker

  predicate IsMarkerLine(line: string) {
    |line| > 0 && StartsWith(TrimStart(line), Marker)
  }

  /** The inserted line, indented like the first '"' of the line that followed the marker. */
  function CompanionLine(next: string): string
    requires IndexOfChar(next, '"') >= 0
  {
    Spaces(IndexOfChar(next, '"')) + Companion
  }

  function Prepend(prefix: seq<string>, r: Result<seq<string>, QuirkError>): Result<seq<string>, QuirkError> {
    match r
    case Ok(rest) => Ok(prefix + rest)
    case Err(e) => Err(e)
  }

  lemma PrependNothing(r: Result<seq<string>, QuirkError>)
    ensures Prepend([], r) == r
  {
    if r.Ok? {
      assert [] + r.value == r.value;
    }
  }

  lemma PrependPrepend(a: seq<string>, b: seq<string>, r: Result<seq<string>, QuirkError>)
    ensures Prepend(a, Prepend(b, r)) == Prepend(a + b, r)
  {
    if r.Ok? {
      assert a + (b + r.value) == (a + b) + r.value;
    }
  }

  /** The line list after the fix: a companion line after each marker line. */
  function Patched(lines: seq<string>): Result<seq<string>, QuirkError>
    decreases |lines|
  {
    if lines == [] then Ok([])
    else if !IsMarkerLine(lines[0]) then Prepend([lines[0]], Patched(lines[1..]))
    else if |lines| == 1 then Err(MarkerOnLastLine)
    else if IndexOfChar(lines[1], '"') < 0 then Err(NoQuoteAfterMarker)
    else Prepend([lines[0], CompanionLine(lines[1])], Patched(lines[1..]))
  }

  /** The reserialized text after the fix; only texts containing the marker are split and rejoined. */
  function FixedText(newJson: string): Result<string, QuirkError> {
    if !Contains(newJson, Marker) then Ok(newJson)
    else match Patched(Split(newJson, NewLine))
      case Ok(lines) => Ok(Join(NewLine, lines))
      case Err(e) => Err(e)
  }

  /** The loop of FixSerializationExceptions: List.Insert after each marker line, index moving past it. */
  method FixSerializationExceptions(newJson: string) returns (r: Result<string, QuirkError>)
    ensures r == FixedText(newJson)
  {
    if !Contains(newJson, Marker) {
      return Ok(newJson);
    }
    var lines := Split(newJson, NewLine);
    ghost var original := lines;
    ghost var j := 0;
    var i := 0;
    PrependNothing(Patched(original));
    while i < |lines|
      invariant 0 <= i <= |lines| && 0 <= j <= |original|
      invariant lines[i..] == original[j..]
      invariant Patched(original) == Prepend(lines[..i], Patched(original[j..]))
      decreases |lines| - i
    {
      ghost var rest := original[j..];
      ghost var before := lines[..i];
      assert rest[0] == lines[i] && rest[1..] == original[j + 1..];
      if IsMarkerLine(lines[i]) {
        ghost var marker := lines[i];
        i := i + 1;
        if i >= |lines| {
          MarkerStep(before, rest);
          assert Patched(original) == Err(MarkerOnLastLine);
          return Err(MarkerOnLastLine);
        }
        var quote := IndexOfChar(lines[i], '"');
        assert lines[i] == rest[1];
        if quote < 0 {
          MarkerStep(before, rest);
          assert Patched(original) == Err(NoQuoteAfterMarker);
          return Err(NoQuoteAfterMarker);
        }
        MarkerStep(before, rest);
        assert lines[..i] == before + [marker];
        lines := lines[..i] + [Spaces(quote) + Companion] + lines[i..];
        assert lines[..i + 1] == before + [marker, CompanionLine(rest[1])];
      } else {
        PlainStep(before, rest);
        assert lines[..i + 1] == before + [lines[i]];
      }
      i := i + 1;
      j := j + 1;
    }
    assert lines[..i] == lines && original[j..] == [];
    assert Patched(original) == Ok(lines + []);
    assert lines + [] == lines;
    r := Ok(Join(NewLine, lines));
  }

  lemma PlainStep(before: seq<string>, rest: seq<string>)
    requires rest != [] && !IsMarkerLine(rest[0])
    ensures Prepend(before, Patched(rest)) == Prepend(before + [rest[0]], Patched(rest[1..]))
  {
    PrependPrepend(before, [rest[0]], Patched(rest[1..]));
  }

  lemma MarkerStep(before: seq<string>, rest: seq<string>)
    requires rest != [] && IsMarkerLine(rest[0])
    ensures |rest| == 1 ==> Prepend(before, Patched(rest)) == Err(MarkerOnLastLine)
    ensures |rest| > 1 && IndexOfChar(rest[1], '"') < 0 ==> Prepend(before, Patched(rest)) == Err(NoQuoteAfterMarker)
    ensures |rest| > 1 && IndexOfChar(rest[1], '"') >= 0 ==>
      Prepend(before, Patched(rest)) == Prepend(before + [rest[0], CompanionLine(rest[1])], Patched(rest[1..]))
  {
    if |rest| > 1 && IndexOfChar(rest[1], '"') >= 0 {
      PrependPrepend(before, [rest[0], CompanionLine(rest[1])], Patched(rest[1..]));
    }
  }

  /** Without marker lines the fix keeps the line list as it is. */
  lemma {:induction false} PatchedWithoutMarkers(lines: seq<string>)
    requires forall i :: 0 <= i < |lines| ==> !IsMarkerLine(lines[i])
    ensures Patched(lines) == Ok(lines)
    decreases |lines|
  {
    if lines != [] {
      PatchedWithoutMarkers(lines[1..]);
      assert lines == [lines[0]] + lines[1..];
    }
  }

  /** The whole fix is the identity on a text none of whose lines is a marker line. */
  lemma FixedTextWithoutMarkerLines(newJson: string)
    requires forall l :: l in Split(newJson, NewLine) ==> !IsMarkerLine(l)
    ensures FixedText(newJson) == Ok(newJson)
  {
    if Contains(newJson, Marker) {
      PatchedWithoutMarkers(Split(newJson, NewLine));
      JoinSplit(newJson, NewLine);
    }
  }

  /** The fix throws iff some marker line is last or is followed by a line without '"'. */
  lemma {:induction false} PatchedFailsIff(lines: seq<string>)
    ensures Patched(lines).Err? <==>
      exists i :: 0 <= i < |lines| && IsMarkerLine(lines[i]) && (i + 1 == |lines| || IndexOfChar(lines[i + 1], '"') < 0)
    decreases |lines|
  {
    if lines != [] {
      PatchedFailsIff(lines[1..]);
      var tail := lines[1..];
      if exists i :: 0 <= i < |tail| && IsMarkerLine(tail[i]) && (i + 1 == |tail| || IndexOfChar(tail[i + 1], '"') < 0) {
        var i :| 0 <= i < |tail| && IsMarkerLine(tail[i]) && (i + 1 == |tail| || IndexOfChar(tail[i + 1], '"') < 0);
        assert lines[i + 1] == tail[i];
      }
      if exists i :: 0 <= i < |lines| && IsMarkerLine(lines[i]) && (i + 1 == |lines| || IndexOfChar(lines[i + 1], '"') < 0) {
        var i :| 0 <= i < |lines| && IsMarkerLine(lines[i]) && (i + 1 == |lines| || IndexOfChar(lines[i + 1], '"') < 0);
        if i > 0 {
          assert tail[i - 1] == lines[i];
        }
      }
    }
  }

  /** The number of marker lines. */
  function MarkerCount(lines: seq<string>): nat {
    if lines == [] then 0 else (if IsMarkerLine(lines[0]) then 1 else 0) + MarkerCount(lines[1..])
  }

  /** Removes the line after each marker line: the inverse of the fix. */
  function Unpatched(out: seq<string>): seq<string>
    decreases |out|
  {
    if out == [] then []
    else if IsMarkerLine(out[0]) && |out| >= 2 then [out[0]] + Unpatched(out[2..])
    else [out[0]] + Unpatched(out[1..])
  }

  /** A companion line is never taken for a marker line. */
  lemma CompanionIsNoMarker(next: string)
    requires IndexOfChar(next, '"') >= 0
    ensures !IsMarkerLine(CompanionLine(next))
  {
    var n := IndexOfChar(next, '"');
    assert CompanionLine(next) == Spaces(n) + Companion;
    assert Companion[0] == '"';
    TrimSpaces(n, Companion);
    assert |Companion| < |Marker|;
  }

  lemma {:induction false} TrimSpaces(n: nat, s: string)
    requires s != [] && !IsWhiteSpace(s[0])
    ensures TrimStart(Spaces(n) + s) == s
  {
    if n > 0 {
      assert Spaces(n) + s == [' '] + (Spaces(n - 1) + s);
      TrimSpaces(n - 1, s);
    } else {
      assert Spaces(0) + s == s;
    }
  }

  /** The companion line of a successful fix at a marker line, and the fix of the rest. */
  lemma PatchedAtMarker(lines: seq<string>)
    requires lines != [] && IsMarkerLine(lines[0]) && Patched(lines).Ok?
    ensures |lines| > 1 && IndexOfChar(lines[1], '"') >= 0 && Patched(lines[1..]).Ok?
    ensures Patched(lines).value == [lines[0], CompanionLine(lines[1])] + Patched(lines[1..]).value
  {
  }

  /** The fix of the rest, after a line that is no marker line. */
  lemma PatchedAtPlain(lines: seq<string>)
    requires lines != [] && !IsMarkerLine(lines[0]) && Patched(lines).Ok?
    ensures Patched(lines[1..]).Ok?
    ensures Patched(lines).value == [lines[0]] + Patched(lines[1..]).value
  {
  }

  /** Every original line is kept, in order: taking out the inserted lines gives them back. */
  lemma {:induction false} PatchedKeepsLines(lines: seq<string>)
    requires Patched(lines).Ok?
    ensures Unpatched(Patched(lines).value) == lines
    decreases |lines|
  {
    if lines != [] {
      var out := Patched(lines).value;
      if IsMarkerLine(lines[0]) {
        PatchedAtMarker(lines);
        PatchedKeepsLines(lines[1..]);
        assert out[2..] == Patched(lines[1..]).value;
      } else {
        PatchedAtPlain(lines);
        PatchedKeepsLines(lines[1..]);
        assert out[1..] == Patched(lines[1..]).value;
      }
      assert lines == [lines[0]] + lines[1..];
    }
  }

  /** The fix adds exactly one line per marker line. */
  lemma {:induction false} PatchedLength(lines: seq<string>)
    requires Patched(lines).Ok?
    ensures |Patched(lines).value| == |lines| + MarkerCount(lines)
    decreases |lines|
  {
    if lines != [] {
      if IsMarkerLine(lines[0]) {
        PatchedAtMarker(lines);
      } else {
        PatchedAtPlain(lines);
      }
      PatchedLength(lines[1..]);
    }
  }

  /** In the fixed lines a marker line at j is followed by CompanionLine(out[j + 2]). */
  predicate CompanionFollows(out: seq<string>, j: nat)
    requires j < |out|
  {
    j + 2 < |out| && IndexOfChar(out[j + 2], '"') >= 0 && out[j + 1] == CompanionLine(out[j + 2])
  }

  /** Read from the front: each marker line is followed by its companion line, then by the next original line. */
  predicate CompanionsInPlace(out: seq<string>)
    decreases |out|
  {
    if out == [] then true
    else if IsMarkerLine(out[0]) then
      |out| >= 3 && IndexOfChar(out[2], '"') >= 0 && out[1] == CompanionLine(out[2]) && !IsMarkerLine(out[1])
      && CompanionsInPlace(out[2..])
    else CompanionsInPlace(out[1..])
  }

  lemma {:induction false} PatchedInPlace(lines: seq<string>)
    requires Patched(lines).Ok?
    ensures CompanionsInPlace(Patched(lines).value)
    decreases |lines|
  {
    if lines != [] {
      var out := Patched(lines).value;
      if IsMarkerLine(lines[0]) {
        PatchedAtMarker(lines);
        PatchedHead(lines[1..]);
        CompanionIsNoMarker(lines[1]);
        PatchedInPlace(lines[1..]);
        assert out[2..] == Patched(lines[1..]).value;
      } else {
        PatchedAtPlain(lines);
        PatchedInPlace(lines[1..]);
        assert out[1..] == Patched(lines[1..]).value;
      }
    }
  }

  lemma {:induction false} InPlaceAt(out: seq<string>, j: nat)
    requires CompanionsInPlace(out) && j < |out| && IsMarkerLine(out[j])
    ensures CompanionFollows(out, j)
    decreases |out|, 1
  {
    if IsMarkerLine(out[0]) {
      InPlaceAfterMarker(out, j);
    } else {
      InPlaceAt(out[1..], j - 1);
      FollowsShifted(out, 1, j);
    }
  }

  lemma {:induction false} InPlaceAfterMarker(out: seq<string>, j: nat)
    requires CompanionsInPlace(out) && j < |out| && IsMarkerLine(out[j]) && IsMarkerLine(out[0])
    ensures CompanionFollows(out, j)
    decreases |out|, 0
  {
    if j == 1 {
      assert false;
    } else if j >= 2 {
      InPlaceAt(out[2..], j - 2);
      FollowsShifted(out, 2, j);
    }
  }

  lemma FollowsShifted(out: seq<string>, k: nat, j: nat)
    requires k <= j < |out| && CompanionFollows(out[k..], j - k)
    ensures CompanionFollows(out, j)
  {
    var rest := out[k..];
    assert rest[j - k + 1] == out[j + 1] && rest[j - k + 2] == out[j + 2];
  }

  /**
   * Every marker line of the result is followed by the companion line, then by the
   * original next line whose first '"' fixes the companion's indentation.
   */
  lemma PatchedCompanions(lines: seq<string>)
    requires Patched(lines).Ok?
    ensures var out := Patched(lines).value;
      forall j :: 0 <= j < |out| && IsMarkerLine(out[j]) ==> CompanionFollows(out, j)
  {
    var out := Patched(lines).value;
    PatchedInPlace(lines);
    forall j | 0 <= j < |out| && IsMarkerLine(out[j]) ensures CompanionFollows(out, j) {
      InPlaceAt(out, j);
    }
  }

  /** A successful fix starts with the first original line. */
  lemma PatchedHead(lines: seq<string>)
    requires lines != [] && Patched(lines).Ok?
    ensures Patched(lines).value != [] && Patched(lines).value[0] == lines[0]
  {
  }
}
