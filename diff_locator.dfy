/**
 * The location report of a failed round trip (CreateDiffErrorMsg): the first
 * index where the extracted and the reserialized text differ, with the line
 * and column at which the scan stopped.
 */
module DiffLocator {

  datatype DiffLocation = DiffLocation(position: nat, line: nat, column: nat)

  /** The number of '\n' characters in s. */
  function NewlineCount(s: string): nat {
    if s == [] then 0 else NewlineCount(s[..|s| - 1]) + (if s[|s| - 1] == '\n' then 1 else 0)
  }

  /** The column after reading s: the characters since the last '\n'. */
  function Column(s: string): nat {
    if s == [] then 0 else if s[|s| - 1] == '\n' then 0 else Column(s[..|s| - 1]) + 1
  }

  function Min(a: nat, b: nat): nat {
    if a < b then a else b
  }

  /**
   * A divergence the scan reports: the characters at k differ, and in formatted
   * mode k is not on line 0 (the line holding the unformatted record).
   */
  predicate Reported(json: string, newJson: string, formatted: bool, k: nat)
    requires k < |json| && k < |newJson|
  {
    json[k] != newJson[k] && !(formatted && NewlineCount(json[..k + 1]) == 0)
  }

  /** The least reported index below n, or n when there is none. */
  function FirstReported(json: string, newJson: string, formatted: bool, n: nat): (r: nat)
    requires n <= |json| && n <= |newJson|
    ensures r <= n
    ensures forall k :: 0 <= k < r ==> !Reported(json, newJson, formatted, k)
    ensures r < n ==> Reported(json, newJson, formatted, r)
  {
    if n == 0 then 0
    else
      var f := FirstReported(json, newJson, formatted, n - 1);
      if f < n - 1 then f
      else if Reported(json, newJson, formatted, n - 1) then n - 1
      else n
  }

  /** The location CreateDiffErrorMsg reports for json against newJson. */
  function Locate(json: string, newJson: string, formatted: bool): DiffLocation {
    var n := Min(|json|, |newJson|);
    var p := FirstReported(json, newJson, formatted, n);
    var consumed := if p < n then p + 1 else n;
    DiffLocation(p, NewlineCount(json[..consumed]), Column(json[..consumed]))
  }

  /** FirstReported is determined by its contract: the least reported index. */
  lemma {:induction false} FirstReportedIs(json: string, newJson: string, formatted: bool, n: nat, i: nat)
    requires i <= n <= |json| && n <= |newJson|
    requires forall k :: 0 <= k < i ==> !Reported(json, newJson, formatted, k)
    requires i < n ==> Reported(json, newJson, formatted, i)
    ensures FirstReported(json, newJson, formatted, n) == i
  {
  }

  /**
   * The scan of CreateDiffErrorMsg: walk the common prefix counting lines and
   * columns of json, stop at the first reported divergence.
   */
  method DiffErrorLocation(json: string, newJson: string, formatted: bool) returns (loc: DiffLocation)
    ensures loc == Locate(json, newJson, formatted)
  {
    var shortest := if |json| > |newJson| then newJson else json;
    var lineNumber := 0;
    var linePosition := 0;
    var firstDifferentChar := |shortest|;
    var i := 0;
    while i < |shortest|
      invariant 0 <= i <= |shortest| == Min(|json|, |newJson|)
      invariant lineNumber == NewlineCount(json[..i]) && linePosition == Column(json[..i])
      invariant forall k :: 0 <= k < i ==> !Reported(json, newJson, formatted, k)
      invariant firstDifferentChar == |shortest|
    {
      assert json[..i + 1][..i] == json[..i];
      if json[i] == '\n' {
        lineNumber := lineNumber + 1;
        linePosition := 0;
      } else {
        linePosition := linePosition + 1;
      }
      if json[i] != newJson[i] && !(lineNumber == 0 && formatted) {
        firstDifferentChar := i;
        FirstReportedIs(json, newJson, formatted, |shortest|, i);
        break;
      }
      i := i + 1;
    }
    if firstDifferentChar == |shortest| {
      FirstReportedIs(json, newJson, formatted, |shortest|, |shortest|);
    }
    loc := DiffLocation(firstDifferentChar, lineNumber, linePosition);
  }

  /** The reported position never passes the shorter text, and reaches it iff nothing is reported. */
  lemma LocateBounds(json: string, newJson: string, formatted: bool)
    ensures Locate(json, newJson, formatted).position <= Min(|json|, |newJson|)
    ensures Locate(json, newJson, formatted).position == Min(|json|, |newJson|)
        <==> forall k :: 0 <= k < Min(|json|, |newJson|) ==> !Reported(json, newJson, formatted, k)
  {
    var n := Min(|json|, |newJson|);
    var p := Locate(json, newJson, formatted).position;
    if p < n {
      assert Reported(json, newJson, formatted, p);
    }
  }

  /** Unformatted mode reports the first differing character: equal before it, different at it. */
  lemma LocateUnformatted(json: string, newJson: string)
    ensures var p := Locate(json, newJson, false).position;
      && (forall k :: 0 <= k < p ==> json[k] == newJson[k])
      && (p < |json| && p < |newJson| ==> json[p] != newJson[p])
  {
    var n := Min(|json|, |newJson|);
    var p := FirstReported(json, newJson, false, n);
    forall k | 0 <= k < p ensures json[k] == newJson[k] {
      assert !Reported(json, newJson, false, k);
    }
  }

  /** Formatted mode skips every divergence on line 0 and reports the first one after it. */
  lemma LocateFormatted(json: string, newJson: string)
    ensures var p := Locate(json, newJson, true).position;
      && (forall k :: 0 <= k < p ==> json[k] == newJson[k] || NewlineCount(json[..k + 1]) == 0)
      && (p < |json| && p < |newJson| ==> json[p] != newJson[p] && NewlineCount(json[..p + 1]) > 0)
  {
    var n := Min(|json|, |newJson|);
    var p := FirstReported(json, newJson, true, n);
    forall k | 0 <= k < p ensures json[k] == newJson[k] || NewlineCount(json[..k + 1]) == 0 {
      assert !Reported(json, newJson, true, k);
    }
  }

  /** NewlineCount counts exactly the '\n' characters. */
  lemma {:induction false} NewlineCountIsMultiplicity(s: string)
    ensures NewlineCount(s) == multiset(s)['\n']
  {
    if s != [] {
      NewlineCountIsMultiplicity(s[..|s| - 1]);
      assert s == s[..|s| - 1] + [s[|s| - 1]];
      assert multiset(s) == multiset(s[..|s| - 1]) + multiset{s[|s| - 1]};
    }
  }

  /** The column is the length of the tail after the last '\n' (all of s if there is none). */
  lemma {:induction false} ColumnIsTailAfterLastNewline(s: string)
    ensures Column(s) <= |s|
    ensures forall j :: |s| - Column(s) <= j < |s| ==> s[j] != '\n'
    ensures Column(s) < |s| ==> s[|s| - Column(s) - 1] == '\n'
  {
    if s != [] && s[|s| - 1] != '\n' {
      var t := s[..|s| - 1];
      ColumnIsTailAfterLastNewline(t);
      assert forall j :: |t| - Column(t) <= j < |t| ==> s[j] == t[j];
    }
  }
}
