/**
 * VerifySerialization: a screen file is only unpacked when reserializing it gives
 * back the extracted text; otherwise the app is either too old or the mismatch is
 * reported with diagnostic copies of both texts.
 */
module Verification {
  import opened Wrappers
  import opened Text
  import opened Paths
  import opened FileSystem
  import opened QuirkFixer
  import opened DiffLocator

  /** System.Version: a component that was not given is -1. */
  datatype Version = Version(major: nat, minor: nat, build: int, revision: int)

  /** Only the trailing components can be missing. */
  predicate ValidVersion(v: Version) {
    v.build >= -1 && v.revision >= -1 && (v.build == -1 ==> v.revision == -1)
  }

  /** Version's operator <: major, minor, build, revision in turn. */
  predicate VersionLess(a: Version, b: Version) {
    || a.major < b.major
    || (a.major == b.major && a.minor < b.minor)
    || (a.major == b.major && a.minor == b.minor && a.build < b.build)
    || (a.major == b.major && a.minor == b.minor && a.build == b.build && a.revision < b.revision)
  }

  /** new Version("1.280") */
  const MinimumDocVersion: Version := Version(1, 280, -1, -1)

  const DataFileExt: string := ".json"
  const UnformattedPrefix: string := "//// Unformatted: "

  /** Newtonsoft's Formatting (None is renamed, Option already uses that name). */
  datatype Formatting = Indented | NoFormatting

  /** An app is too old exactly when its (major, minor) pair is below (1, 280). */
  lemma BelowMinimumIsPairOrder(v: Version)
    requires ValidVersion(v)
    ensures VersionLess(v, MinimumDocVersion) <==> v.major < 1 || (v.major == 1 && v.minor < 280)
  {
  }

  /** The comparison is a strict total order. */
  lemma VersionOrder(a: Version, b: Version, c: Version)
    ensures !VersionLess(a, a)
    ensures VersionLess(a, b) && VersionLess(b, c) ==> VersionLess(a, c)
    ensures a == b || VersionLess(a, b) || VersionLess(b, a)
  {
  }

  /** The format the extracted text was written in: a second and third character "\r\n". */
  predicate IsJsonFormatted(json: string) {
    |json| > 2 && json[1] == '\r' && json[2] == '\n'
  }

  function FormatOf(json: string): Formatting {
    if IsJsonFormatted(json) then Indented else NoFormatting
  }

  /** The test reads as: the text has more than two characters and its first line is one character. */
  lemma FormattedIffOneCharFirstLine(json: string)
    ensures IsJsonFormatted(json) <==> |json| > 2 && |Split(json, NewLine)[0]| == 1
  {
    var p := IndexOf(json, NewLine);
    if IsJsonFormatted(json) {
      assert OccursAt(json, NewLine, 1);
      assert !OccursAt(json, NewLine, 0);
      assert p == 1;
    }
    if |json| > 2 && |Split(json, NewLine)[0]| == 1 {
      assert p >= 0;
      assert OccursAt(json, NewLine, p);
      assert json[p..p + 2] == NewLine;
    }
  }

  /** The reserialized text: the screen serialized in the text's format, then the quirk fixed. */
  function Reserialized(json: string, serialize: Formatting -> string): Result<string, QuirkError> {
    FixedText(serialize(FormatOf(json)))
  }

  /**
   * FormatJsonFile's decision: a ".json" file (any case) that reads as a single line
   * gets that line as an "Unformatted" record, then its indented form.
   */
  function FormattedTwin(path: string, contents: string, reformat: string -> string): Option<string> {
    if ToLowerAscii(GetExtension(path)) != DataFileExt then None
    else
      var lines := ReadLines(contents);
      if |lines| == 1 then Some(UnformattedPrefix + lines[0] + NewLine + reformat(lines[0]))
      else None
  }

  /** The file text after FormatJsonFile */
  function AfterFormat(path: string, contents: string, reformat: string -> string): string {
    FormattedTwin(path, contents, reformat).GetOr(contents)
  }

  function TwinLog(path: string, contents: string, reformat: string -> string): seq<FileOp> {
    match FormattedTwin(path, contents, reformat)
    case Some(t) => [WriteFile(path, t)]
    case None => []
  }

  /**
   * The twin exists iff the name ends in ".json" in any case and the text, without
   * its final terminator, has no line break; it then reads as the record line
   * followed by the lines of the reformatted text.
   */
  lemma TwinLayout(path: string, contents: string, reformat: string -> string)
    ensures FormattedTwin(path, contents, reformat).Some? <==>
      ToLowerAscii(GetExtension(path)) == DataFileExt && contents != []
      && NoLineBreak(contents[..|contents| - TerminatorLength(contents)])
    ensures FormattedTwin(path, contents, reformat).Some? ==>
      var line := contents[..|contents| - TerminatorLength(contents)];
      ReadLines(FormattedTwin(path, contents, reformat).value) == [UnformattedPrefix + line] + ReadLines(reformat(line))
  {
    SingleLineIff(contents);
    if FormattedTwin(path, contents, reformat).Some? {
      SingleLineContent(contents);
      var line := contents[..|contents| - TerminatorLength(contents)];
      var record := UnformattedPrefix + line;
      assert NoLineBreak(record) by {
        forall k | 0 <= k < |record| ensures !IsLineBreak(record[k]) {
          if k >= |UnformattedPrefix| {
            assert record[k] == line[k - |UnformattedPrefix|];
          }
        }
      }
      ReadLinesCons(record, reformat(line));
    }
  }

  /** FormatJsonFile: rewrites a single-line ".json" file as its twin. */
  method FormatJsonFile(path: string, contents: string, reformat: string -> string, fs: FileSystem) returns (now: string)
    modifies fs
    ensures now == AfterFormat(path, contents, reformat)
    ensures fs.log == old(fs.log) + TwinLog(path, contents, reformat)
  {
    if ToLowerAscii(GetExtension(path)) != DataFileExt {
      return contents;
    }
    var fileLines := ReadLines(contents);
    if |fileLines| == 1 {
      now := UnformattedPrefix + fileLines[0] + NewLine + reformat(fileLines[0]);
      fs.WriteAllText(path, now);
    } else {
      now := contents;
    }
  }

  function CopyLog(file: string, json: string, reformat: string -> string): seq<FileOp> {
    [WriteFile(file, json), CopyFile(file, file + DataFileExt)] + TwinLog(file + DataFileExt, json, reformat)
  }

  /** WriteJsonFileWithFormattedCopy: the text, a ".json" copy of it, and that copy formatted. */
  method WriteJsonFileWithFormattedCopy(file: string, json: string, reformat: string -> string, fs: FileSystem)
    returns (copy: string)
    modifies fs
    ensures copy == AfterFormat(file + DataFileExt, json, reformat)
    ensures fs.log == old(fs.log) + CopyLog(file, json, reformat)
  {
    fs.WriteAllText(file, json);
    fs.Copy(file, file + DataFileExt);
    copy := FormatJsonFile(file + DataFileExt, json, reformat, fs);
  }

  /** The ".json" copy of a diagnostic file is formatted iff the text is a single line. */
  lemma CopyFormattedIffSingleLine(file: string, json: string, reformat: string -> string)
    ensures FormattedTwin(file + DataFileExt, json, reformat).Some? <==> |ReadLines(json)| == 1
  {
    ExtensionOfSuffix(file, DataFileExt);
    assert ToLowerAscii(DataFileExt) == DataFileExt;
  }

  /** The extracted and the reserialized diagnostic file names for a screen file. */
  function DiagnosticFiles(file: string): (string, string) {
    DiagnosticFilesWith(file, OriginalExt, ReserializedExt)
  }

  function DiagnosticFilesWith(file: string, first: string, second: string): (string, string) {
    var jsonFile := PathCombine(DirectoryName(file), GetFileName(file)) + first;
    var newJsonFile := PathCombine(DirectoryName(jsonFile), FileNameWithoutExtension(jsonFile)) + second;
    (jsonFile, newJsonFile)
  }

  const OriginalExt: string := ".original"
  const ReserializedExt: string := ".reserialized"

  /** A plain name with an extension appended, combined onto a directory, is the file name of the result. */
  lemma CombinedName(dir: string, name: string, ext: string)
    requires name != "" && NoSeparator(name) && IsExtension(ext)
    ensures GetFileName(PathCombine(dir, name) + ext) == name + ext
  {
    var s := name + ext;
    forall k | 0 <= k < |s| ensures !IsDirectorySeparator(s[k]) {
      if k >= |name| {
        assert s[k] == ext[k - |name|];
      }
    }
    CombineAppend(dir, name, ext);
    FileNameOfCombined(dir, s);
  }

  /** The extension-less name of the first diagnostic is the screen file's name again. */
  lemma StrippedName(dir: string, name: string, ext: string)
    requires name != "" && NoSeparator(name) && IsExtension(ext)
    ensures FileNameWithoutExtension(PathCombine(dir, name) + ext) == name
  {
    CombinedName(dir, name, ext);
    StripLastDot(name, ext);
    assert (name + ext)[..|name|] == name;
  }

  lemma DiagnosticNamesWith(file: string, first: string, second: string)
    requires GetFileName(file) != "" && IsExtension(first) && IsExtension(second)
    ensures GetFileName(DiagnosticFilesWith(file, first, second).0) == GetFileName(file) + first
    ensures GetFileName(DiagnosticFilesWith(file, first, second).1) == GetFileName(file) + second
  {
    var n := GetFileName(file);
    var jsonFile := PathCombine(DirectoryName(file), n) + first;
    CombinedName(DirectoryName(file), n, first);
    StrippedName(DirectoryName(file), n, first);
    CombinedName(DirectoryName(jsonFile), n, second);
  }

  /** The diagnostics are named after the screen file plus ".original" and ".reserialized". */
  lemma DiagnosticNames(file: string)
    requires GetFileName(file) != ""
    ensures GetFileName(DiagnosticFiles(file).0) == GetFileName(file) + OriginalExt
    ensures GetFileName(DiagnosticFiles(file).1) == GetFileName(file) + ReserializedExt
  {
    DiagnosticExtensions();
    DiagnosticNamesWith(file, OriginalExt, ReserializedExt);
  }

  lemma DiagnosticExtensions()
    ensures IsExtension(OriginalExt) && IsExtension(ReserializedExt)
  {
    forall i | 1 <= i < |OriginalExt| ensures OriginalExt[i] != '.' && !IsDirectorySeparator(OriginalExt[i]) {
      assert OriginalExt[i] in "original";
    }
    forall i | 1 <= i < |ReserializedExt| ensures ReserializedExt[i] != '.' && !IsDirectorySeparator(ReserializedExt[i]) {
      assert ReserializedExt[i] in "reserialized";
    }
  }

  datatype VerifyFailure =
    | QuirkNotFixed(quirk: QuirkError)
    | VersionTooOld(app: Version, minimum: Version)
    | SerializationMismatch(raw: DiffLocation, formatted: DiffLocation, extractedFile: string, reserializedFile: string)

  /** The report of a mismatch: both diffs, the raw one and the one over the formatted copies. */
  function MismatchReport(jsonFile: string, newJsonFile: string, json: string, newJson: string, reformat: string -> string): VerifyFailure {
    SerializationMismatch(
      Locate(json, newJson, false),
      Locate(AfterFormat(jsonFile + DataFileExt, json, reformat), AfterFormat(newJsonFile + DataFileExt, newJson, reformat), true),
      jsonFile, newJsonFile)
  }

  function MismatchLog(jsonFile: string, newJsonFile: string, json: string, newJson: string, reformat: string -> string): seq<FileOp> {
    CopyLog(jsonFile, json, reformat) + CopyLog(newJsonFile, newJson, reformat)
  }

  /** The mismatch branch: both diagnostics written with their formatted copies, then both diffs. */
  method ReportMismatch(jsonFile: string, newJsonFile: string, json: string, newJson: string, reformat: string -> string, fs: FileSystem)
    returns (failure: VerifyFailure)
    modifies fs
    ensures failure == MismatchReport(jsonFile, newJsonFile, json, newJson, reformat)
    ensures fs.log == old(fs.log) + MismatchLog(jsonFile, newJsonFile, json, newJson, reformat)
  {
    var extracted := WriteJsonFileWithFormattedCopy(jsonFile, json, reformat, fs);
    var reserialized := WriteJsonFileWithFormattedCopy(newJsonFile, newJson, reformat, fs);
    var raw := DiffErrorLocation(json, newJson, false);
    var formatted := DiffErrorLocation(extracted, reserialized, true);
    failure := SerializationMismatch(raw, formatted, jsonFile, newJsonFile);
  }

  /** The fixed reserialization exists and differs from the extracted text. */
  predicate Differs(json: string, serialize: Formatting -> string) {
    Reserialized(json, serialize).Ok? && Reserialized(json, serialize).value != json
  }

  /**
   * VerifySerialization; an exception it throws is an Err. Nothing is written unless
   * the texts differ and the app is recent enough.
   */
  method VerifySerialization(json: string, serialize: Formatting -> string, reformat: string -> string,
                             file: string, docVersion: Version, fs: FileSystem)
    returns (r: Result<(), VerifyFailure>)
    modifies fs
    ensures Reserialized(json, serialize).Err? ==>
      r == Err(QuirkNotFixed(Reserialized(json, serialize).error)) && fs.log == old(fs.log)
    ensures Reserialized(json, serialize) == Ok(json) ==> r == Ok(()) && fs.log == old(fs.log)
    ensures Differs(json, serialize) && VersionLess(docVersion, MinimumDocVersion) ==>
      r == Err(VersionTooOld(docVersion, MinimumDocVersion)) && fs.log == old(fs.log)
    ensures Differs(json, serialize) && !VersionLess(docVersion, MinimumDocVersion) ==>
      var newJson := Reserialized(json, serialize).value;
      var files := DiagnosticFiles(file);
      r == Err(MismatchReport(files.0, files.1, json, newJson, reformat))
      && fs.log == old(fs.log) + MismatchLog(files.0, files.1, json, newJson, reformat)
  {
    var isJsonFormatted := |json| > 2 && json[1] == '\r' && json[2] == '\n';
    var serialized := serialize(if isJsonFormatted then Indented else NoFormatting);
    var fixedJson := FixSerializationExceptions(serialized);
    assert fixedJson == Reserialized(json, serialize);
    if fixedJson.Err? {
      return Err(QuirkNotFixed(fixedJson.error));
    }
    var newJson := fixedJson.value;
    if json == newJson {
      return Ok(());
    }
    if VersionLess(docVersion, MinimumDocVersion) {
      return Err(VersionTooOld(docVersion, MinimumDocVersion));
    }
    var files := DiagnosticFiles(file);
    var failure := ReportMismatch(files.0, files.1, json, newJson, reformat, fs);
    r := Err(failure);
  }
}
