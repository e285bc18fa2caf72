# CanvasAppPackager unpacking, modelled in Dafny

CanvasAppPackager unpacks a Power Apps canvas app (`.msapp`, or a solution
`.zip` holding several apps) into a folder tree that can be kept under source
control. This project models the logic at the core of `UnpackLogic.cs` and
proves properties about it:

- **The serialization gate** (`VerifySerialization`). A screen file is only
  decomposed when reserializing the deserialized screen gives back the extracted
  text. The format of that text (indented or not) is detected from its second
  and third characters. A known serializer quirk is patched first: the
  `"TemplateDisplayName": null,` line is inserted after each
  `"DynamicControlDefinitionJson": ` line (`FixSerializationExceptions`). On a
  mismatch, an app older than document version 1.280 is rejected as too old.
  Any other mismatch writes both texts and their formatted `.json` copies
  (`WriteJsonFileWithFormattedCopy`, `FormatJsonFile`). It then reports where
  the texts first differ (`CreateDiffErrorMsg`).
- **The control walk** (`ParseControl`), a depth-first walk over the screen's
  control tree. Each control gets a directory, a `.js` code file of its rules
  and a `.json` data file. The data file holds what is left of the control: the
  rules without scripts, and the `ChildrenOrder` records in place of the
  children. Every step is bracketed by `PushControl`/`PopControl` on the
  auto-value extractor.
- **Metadata names**: the file-name map built from the app info
  (`GetMetadataFileMappings`), and the logo rename (`RenameAutoNamedFiles`).
- **Option-driven choices**: the app's output folder name (line 76) and the
  optional rename of copied controls (`RenameControls`).

The model is built on these stand-ins:

- **Platform.** The platform is Windows: `Environment.NewLine` is `"\r\n"`, and
  `'\'` and `'/'` are the directory separators.
- **.NET library.** The .NET string and path operations the code uses are
  written out in `text.dfy` and `paths.dfy`. String comparison is ordinal
  throughout; "Left out" says where .NET differs. The file system is a `FileSystem`
  object that records every write, copy, delete and move in a log. Reading a
  file is a parameter holding its text.
- **Foreign code.** JSON (de)serialization, `screen.Serialize` and
  `control.Serialize` are function-valued parameters. The auto-value extractor
  is a record of the calls made on it, together with its scope stack.
- **Null and exceptions.** A C# `null` is `None`, and a thrown exception is an
  `Err` result.
- **The control tree** is a tree of `Control` and `Rule` objects, updated in
  place as the source does. A ghost `ControlTree` value describes the
  deserialized tree, and the walk is proved against it.

## Model

| member | source | states |
|---|---|---|
| DiffLocator.DiffErrorLocation | CanvasAppPackager/UnpackLogic.cs:246-281 | The scan returns `Locate`. The position is the first divergence the scan reports, or the shorter length if there is none. The line number and column are those of `json` up to and including the stop index. |
| DiffLocator.FirstReported | CanvasAppPackager/UnpackLogic.cs:255-280 | The stop index is at most the bound, and no index before it is reported. When it is below the bound, it is itself reported. |
| DiffLocator.LocateBounds | CanvasAppPackager/UnpackLogic.cs:248-256 | The position is at most the shorter length. It equals that length iff no divergence in the common prefix is reported. |
| DiffLocator.LocateUnformatted | CanvasAppPackager/UnpackLogic.cs:256-279 | In unformatted mode the texts agree before the position and differ at it. |
| DiffLocator.LocateFormatted | CanvasAppPackager/UnpackLogic.cs:268-277 | In formatted mode, divergences on line 0 are skipped. A reported position differs and lies after the first `'\n'`. |
| DiffLocator.NewlineCountIsMultiplicity | CanvasAppPackager/UnpackLogic.cs:258-262 | The line number is the number of `'\n'` characters read. |
| DiffLocator.ColumnIsTailAfterLastNewline | CanvasAppPackager/UnpackLogic.cs:258-266 | The column is the length of the run after the last `'\n'` read, or of everything read when there is no `'\n'`. |
| QuirkFixer.FixSerializationExceptions | CanvasAppPackager/UnpackLogic.cs:293-312 | The in-place insertion loop computes `FixedText`, including the two exceptions raised while evaluating `Insert`'s arguments: `lines[++i]` past the last line, and `new string(' ', -1)` when the next line has no `'"'`. |
| QuirkFixer.FixedTextWithoutMarkerLines | CanvasAppPackager/UnpackLogic.cs:295-311 | A text with no marker line comes back unchanged, even after the split and rejoin. |
| QuirkFixer.PatchedWithoutMarkers | CanvasAppPackager/UnpackLogic.cs:299-306 | The loop leaves a line list without marker lines as it is. |
| QuirkFixer.PatchedFailsIff | CanvasAppPackager/UnpackLogic.cs:301-304 | The fix throws iff some marker line is last, or is followed by a line without `'"'`. |
| QuirkFixer.PatchedKeepsLines | CanvasAppPackager/UnpackLogic.cs:299-305 | Dropping the line after each marker line gives back the original lines, in order. |
| QuirkFixer.PatchedLength | CanvasAppPackager/UnpackLogic.cs:304 | Exactly one line is inserted per marker line. |
| QuirkFixer.PatchedCompanions | CanvasAppPackager/UnpackLogic.cs:304 | Every marker line of the result is followed by the `TemplateDisplayName` line, then by the line that followed it originally. The inserted line is indented by the index of that line's first `'"'`. |
| QuirkFixer.CompanionIsNoMarker | CanvasAppPackager/UnpackLogic.cs:301-304 | An inserted line is never itself a marker line. |
| QuirkFixer.PatchedHead | CanvasAppPackager/UnpackLogic.cs:299-305 | A successful fix starts with the original first line. |
| Text.JoinSplit | CanvasAppPackager/UnpackLogic.cs:298-308 | Joining the split lines with NewLine gives back the text. |
| Verification.VerifySerialization | CanvasAppPackager/UnpackLogic.cs:216-244 | There are four outcomes. A throwing quirk fix gives an error. An equal reserialization is accepted and writes nothing. A mismatch on a version below 1.280 is "too old" and writes nothing. Any other mismatch writes both diagnostics and reports both diffs. |
| Verification.FormattedIffOneCharFirstLine | CanvasAppPackager/UnpackLogic.cs:218 | The format test holds iff the text is longer than two characters and its first line is one character long. |
| Verification.BelowMinimumIsPairOrder | CanvasAppPackager/UnpackLogic.cs:225 | For a valid version, being below 1.280 is the (major, minor) pair order. |
| Verification.VersionOrder | CanvasAppPackager/UnpackLogic.cs:225 | The version comparison is irreflexive, transitive and total. |
| Verification.FormatJsonFile | CanvasAppPackager/UnpackLogic.cs:114-129 | The file becomes its twin when one exists, and is otherwise left unchanged. The only write is the twin. |
| Verification.TwinLayout | CanvasAppPackager/UnpackLogic.cs:116-128 | A twin exists iff the extension is `.json` in any case and the text has no line break before its final terminator. The twin then reads as the `//// Unformatted: ` record line, followed by the lines of the reformatted text. |
| Verification.WriteJsonFileWithFormattedCopy | CanvasAppPackager/UnpackLogic.cs:286-291 | This writes the text, then copies it to `.json`, then formats the copy. It returns what the copy then holds. |
| Verification.CopyFormattedIffSingleLine | CanvasAppPackager/UnpackLogic.cs:286-291 | The `.json` copy is reformatted iff the text reads as exactly one line. |
| Verification.DiagnosticNames | CanvasAppPackager/UnpackLogic.cs:229-231 | The diagnostic files are named after the screen file plus `.original`, and plus `.reserialized`. |
| Verification.ReportMismatch | CanvasAppPackager/UnpackLogic.cs:232-237 | The unformatted diff is taken on the texts, and the formatted diff on the formatted copies. |
| FileSystem.SingleLineIff | CanvasAppPackager/UnpackLogic.cs:121-122 | `File.ReadAllLines` gives one line iff the text is non-empty and has no break except a final terminator. |
| FileSystem.SingleLineContent | CanvasAppPackager/UnpackLogic.cs:121-125 | That one line is the text without its terminator. |
| Metadata.GetMetadataFileMappings | CanvasAppPackager/UnpackLogic.cs:149-164 | The dictionary-filling loop computes `FileMappings`, failing on the first file name added twice. |
| Metadata.FileMappingsMeaning | CanvasAppPackager/UnpackLogic.cs:149-164 | The map is built iff the background image and the icon files are pairwise different. It then maps the background image to `BackgroundImage.png` and each icon file to `Icons` joined with its key's file name. It holds nothing else. |
| Metadata.AddIconsOkIff | CanvasAppPackager/UnpackLogic.cs:152-161 | Adding the icons succeeds iff no icon file is already present and no two icons share a file. |
| Metadata.AddIconsKeeps | CanvasAppPackager/UnpackLogic.cs:152-161 | After adding, the keys are the old keys plus the icon files, and the old entries are unchanged. |
| Metadata.AddIconsEntries | CanvasAppPackager/UnpackLogic.cs:152-161 | After adding, each icon file maps to the icon path of its key. |
| Metadata.IconFileName | CanvasAppPackager/UnpackLogic.cs:155-158 | A key ending in `Uri` loses those three characters and gains `.png`. Other keys are kept. |
| Metadata.IconFileNameOfUri | CanvasAppPackager/UnpackLogic.cs:155-158 | `stem + "Uri"` becomes `stem + ".png"`. |
| Metadata.IconPath | CanvasAppPackager/UnpackLogic.cs:160 | The icon path starts with `Icons` and ends with the key's file name. For a non-empty file name without separators it is exactly `Icons\<file name>`. |
| Metadata.IconPathPlacement | CanvasAppPackager/UnpackLogic.cs:155-160 | A plain icon file name lands in the `Icons` folder: its directory is `Icons` and its file name is the key's file name. |
| Metadata.SmallIconPath | CanvasAppPackager/UnpackLogic.cs:155-160 | The key `SmallIconUri` maps to `Icons\SmallIcon.png`. |
| Metadata.LogoName | CanvasAppPackager/UnpackLogic.cs:142 | The logo's new name is `Logo` followed by the original file's extension: its name without extension is `Logo`, and its extension is the original's. It is non-empty and contains no separator. |
| Metadata.RenameAutoNamedFiles | CanvasAppPackager/UnpackLogic.cs:139-146 | Nothing happens when the logo name is null or empty. Otherwise the target is deleted, then the logo is moved to `Logo` plus its extension. |
| Metadata.LogoTargetName | CanvasAppPackager/UnpackLogic.cs:141-142 | The renamed logo is in the resources folder under its new name. |
| AppOptions.AppFolderName | CanvasAppPackager/UnpackLogic.cs:76 | The folder name is the option whenever the option has a non-white-space character. Otherwise it is the display name. |
| AppOptions.AppOutputFolderName | CanvasAppPackager/UnpackLogic.cs:76 | A plain chosen name is the last component of `<output>\Apps\<name>`. |
| AppOptions.BlankNameIgnored | CanvasAppPackager/UnpackLogic.cs:76 | A white-space option gives the same folder as no option. |
| AppOptions.RenameControls | CanvasAppPackager/UnpackLogic.cs:197-213 | A null, empty or white-space old postfix leaves the text unchanged. Otherwise the text is split at the old postfix and joined with the new one, and a null new postfix removes the old one. |
| Text.ReplaceIsSplitJoin | CanvasAppPackager/UnpackLogic.cs:213 | `string.Replace` equals splitting at the pattern and joining with the replacement. |
| AppOptions.RenameWithoutOccurrence | CanvasAppPackager/UnpackLogic.cs:213 | A text without the old postfix is unchanged. |
| AppOptions.RenameToSame | CanvasAppPackager/UnpackLogic.cs:213 | Renaming a postfix to itself changes nothing. |
| ControlWalk.ParseControl | CanvasAppPackager/UnpackLogic.cs:314-357 | Afterwards every rule script is null, `Children` is null, and `ChildrenOrder` is `OrderOf(m)`, recursively. The extractor scope is unchanged, its calls are `Calls(m, scope)`, and the file log is extended by `Ops(m, ...)`. |
| ControlWalk.OpenControl | CanvasAppPackager/UnpackLogic.cs:316-330 | This pushes the control's name, creates the directory, clears every script, and writes the rendered rules to `<dir>\<name>.js`. |
| ControlWalk.RenderControlRules | CanvasAppPackager/UnpackLogic.cs:321-328 | The builder ends as `RenderRules(rules)`. Every script is null, and there is one extraction per rule, in rule order. |
| ControlWalk.RenderRule | CanvasAppPackager/UnpackLogic.cs:323-327 | One turn appends the rule's block, clears its script, and adds its extraction. |
| ControlWalk.RenderRulesAppend | CanvasAppPackager/UnpackLogic.cs:321-330 | The code file is the blocks concatenated in rule order. |
| ControlWalk.RuleBlockRoundTrip | CanvasAppPackager/UnpackLogic.cs:324-326 | A rule's script can be read back from its block, with the added tabs removed. |
| ControlWalk.UnindentIndent | CanvasAppPackager/UnpackLogic.cs:325 | Removing the tab after each NewLine undoes the indentation. |
| ControlWalk.WalkAndClose | CanvasAppPackager/UnpackLogic.cs:333-356 | Once the rules are done, this walks the children in order and then closes the control. |
| ControlWalk.ParseChildren | CanvasAppPackager/UnpackLogic.cs:333-340 | All children are walked in order. The records collected are `ChildOrders(m, n)`, and the calls and file operations are those of each child in turn. |
| ControlWalk.ParseChild | CanvasAppPackager/UnpackLogic.cs:338-339 | Child i is walked in `<dir>\<child name>` and its record is appended. Its siblings are untouched. |
| ControlWalk.CloseControl | CanvasAppPackager/UnpackLogic.cs:342-356 | This extracts the component children if present. It then nulls `Children`, sets the order, extracts the control, writes the data file and pops. |
| ControlWalk.SetChildrenOrder | CanvasAppPackager/UnpackLogic.cs:347-348 | `Children` is null, and `ChildrenOrder` is null iff there were no children. |
| ControlWalk.SaveControl | CanvasAppPackager/UnpackLogic.cs:350-356 | This makes the control's extraction, writes its data file, and leaves its scope. |
| ControlWalk.WriteData | CanvasAppPackager/UnpackLogic.cs:351-354 | The data file `<dir>\<dir name>.json` holds the serialized residual: the screen for the top parent, the control otherwise. |
| ControlWalk.ChildOrderAt | CanvasAppPackager/UnpackLogic.cs:339 | Record i names child i and carries that child's own order. |
| ControlWalk.RebuildFromOrder | CanvasAppPackager/UnpackLogic.cs:333-348 | The names and nesting of the whole subtree can be rebuilt from a control's name and `ChildrenOrder`. |
| ControlWalk.WalkBalanced | CanvasAppPackager/UnpackLogic.cs:316-356 | The walk's extractor calls never pop an empty scope. They extract only in the current scope and leave the scope as they found it. |
| ControlWalk.ChildrenBalanced | CanvasAppPackager/UnpackLogic.cs:336-340 | The same holds for the walks over the children. |
| ControlWalk.RuleCallsBalanced | CanvasAppPackager/UnpackLogic.cs:323 | Rule extractions stay in the control's scope. |

## Left out

- Unpacking orchestration is not modelled: `Unpack`, `ExtractApps`, `MoveMetadataFiles`, `ExtractCanvasApp` and `ExtraCodeful`. These cover zip and `.msapp` extraction, the clobber delete, directory enumeration, and moving files. They are file-system I/O around the modelled pieces. Of them, only the folder-name choice (line 76) and the rename guard (lines 197-199) are modelled.
- JSON is not modelled. Newtonsoft (de)serialization, `screen.Serialize`, `control.Serialize` and `AutoValueExtractor.Serialize` belong to a foreign library. They are function parameters, or not modelled.
- The internals of `AutoValueExtractor` are not modelled, because its class is not part of this model. Only its calls and its scope stack are recorded.
- `Logger` output is not modelled. The wording of the exception messages is also left out, including the text `CreateDiffErrorMsg` builds. Only the position, line and column it reports are modelled.
- File contents that the code reads (`File.ReadAllText`, `File.ReadAllLines`, the publish info) are parameters. The diagnostic diff reads back the formatted copies (line 237); that is modelled by what the copies were written with.
- `System.Version` parsing is not modelled. A version is a four-component value in which a missing component is -1.
- Null inputs that would throw a `NullReferenceException` or `ArgumentNullException` are not modelled. The cases are: a null `Rules` list, a null rule script, a null control `Name`, null `Children`, a null background image, a null `Icons` collection (line 152), a null icon value, and a null display name. The model takes these to be present.
- A null rule `Property` is not modelled either. It does not throw: lines 324 and 326 render it as an empty string in the header and footer. The model takes every property to be a string.
- `Text.StartsWith` and `Text.EndsWith` compare character by character (ordinal). The source's one-argument `StartsWith` (line 302) and `EndsWith` (line 155) compare in the current culture, which ignores characters such as U+00AD and U+200B. Under that comparison the key `AppIconUri` followed by U+00AD ends with `Uri`, but not in the model. The model covers only inputs where the two comparisons agree. `string.Contains`, `Replace`, `Split` and `IndexOf(char)` are ordinal in .NET as in the model.
- `Char.IsWhiteSpace` covers the Latin-1 and Unicode separator set. `ToLower` at line 116 is modelled for ASCII letters only.
- Path roots are simplified. `Path.GetFileName`, `GetExtension` and `GetDirectoryName` ignore drive and UNC roots beyond a leading separator or `X:`.
- `GetDirectoryName` normalisation is not modelled. On Windows it turns `'/'` into `'\'` and collapses repeated separators, so `out/Controls/1.json` gives `out\Controls`. The model's `DirectoryName` keeps the prefix as written. The paths that `DiagnosticFiles` and `DataFilePath` build therefore match the source only for paths already written with single `'\'` separators.
- For the key `SmallIconUri`, lines 155-160 compute `Icons\SmallIcon.png` (see `Metadata.SmallIconPath`).
- The order in which `appInfo.Icons` is enumerated is not modelled. The icons are a sequence in enumeration order.
- A data file's contents are not modelled field by field. `ControlData` is a projection: the control's name, each rule's property and script, and `ChildrenOrder`. The other fields of the control or screen, as `Extract(control)` leaves them, are serialized at lines 350-354. In the model they exist only inside the `serializeControl` and `serializeScreen` parameters. The model therefore treats two controls that agree on this projection as writing the same data file.
- `AutoValues.AutoValueExtractor.PopControl` requires a non-empty scope. The real class's behaviour on an unbalanced pop is not part of this model. The walk is proved never to pop an empty scope.
- DiffLocator.DiffErrorLocation: positions and columns count Unicode scalar values (Dafny characters), while `json[p]`, `json.Length` and the column counter at lines 248-279 count UTF-16 code units. The reported location agrees with the source only while no character before the difference is above U+FFFF. For `"\U{1F600}a"` against `"\U{1F600}b"`, the model reports position 1 and column 2, and the source reports position 2 and column 3. The location reaches `Verification.ReportMismatch` and `Verification.VerifySerialization` through `SerializationMismatch`. The format test at line 218 and the `IndexOf('"')` at line 304 give the same answers on every JSON text, so they are not affected.
- C# `int` overflow of indices and counts is not modelled: strings are short of 2^31 characters.
