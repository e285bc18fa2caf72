/**
 * The two decisions the unpacker takes from its command-line options: the
 * folder an app is unpacked into, and the optional rename of copied controls.
 * A C# null option is None.
 */
module AppOptions {
  import opened Wrappers
  import opened Text
  import opened Paths

  const AppsFolder: string := "Apps"

  /** The app's folder name: the NameOfApplication option unless it is null or white space, else the display name. */
  function AppFolderName(nameOfApplication: Option<string>, displayName: string): (r: string)
    ensures IsNullOrWhiteSpace(nameOfApplication) ==> r == displayName
    ensures nameOfApplication.Some? && (exists i :: 0 <= i < |nameOfApplication.value| && !IsWhiteSpace(nameOfApplication.value[i]))
      ==> r == nameOfApplication.value
  {
    if IsNullOrWhiteSpace(nameOfApplication) then displayName else nameOfApplication.value
  }

  /** Path.Combine(outputDirectory, "Apps", name) with the name chosen above. */
  function AppOutputPath(outputDirectory: string, nameOfApplication: Option<string>, displayName: string): string {
    PathCombine(PathCombine(outputDirectory, AppsFolder), AppFolderName(nameOfApplication, displayName))
  }

  /** A plain chosen name becomes the last component of the output folder. */
  lemma AppOutputFolderName(outputDirectory: string, nameOfApplication: Option<string>, displayName: string)
    requires AppFolderName(nameOfApplication, displayName) != "" && NoSeparator(AppFolderName(nameOfApplication, displayName))
    ensures GetFileName(AppOutputPath(outputDirectory, nameOfApplication, displayName)) == AppFolderName(nameOfApplication, displayName)
  {
    FileNameOfCombined(PathCombine(outputDirectory, AppsFolder), AppFolderName(nameOfApplication, displayName));
  }

  /** A blank option falls back to the display name: the folder is then the same as with no option at all. */
  lemma BlankNameIgnored(outputDirectory: string, blank: string, displayName: string)
    requires forall i :: 0 <= i < |blank| ==> IsWhiteSpace(blank[i])
    ensures AppOutputPath(outputDirectory, Some(blank), displayName) == AppOutputPath(outputDirectory, None, displayName)
  {
  }

  /**
   * The controls JSON after the optional rename: every occurrence of the old
   * postfix replaced by the new one (a null new postfix removes it), and the
   * text left alone when the old postfix is null, empty or white space.
   */
  function RenameControls(json: string, oldPostfix: Option<string>, newPostfix: Option<string>): (r: string)
    ensures IsNullOrWhiteSpace(oldPostfix) ==> r == json
    ensures !IsNullOrWhiteSpace(oldPostfix) ==> |oldPostfix.value| > 0 && r == Join(newPostfix.GetOr(""), Split(json, oldPostfix.value))
  {
    if IsNullOrWhiteSpace(oldPostfix) then json
    else
      ReplaceIsSplitJoin(json, oldPostfix.value, newPostfix.GetOr(""));
      Replace(json, oldPostfix.value, newPostfix.GetOr(""))
  }

  /** A text that does not contain the old postfix comes out unchanged. */
  lemma RenameWithoutOccurrence(json: string, oldPostfix: string, newPostfix: Option<string>)
    requires !IsNullOrWhiteSpace(Some(oldPostfix)) && !Contains(json, oldPostfix)
    ensures RenameControls(json, Some(oldPostfix), newPostfix) == json
  {
    ReplaceAbsent(json, oldPostfix, newPostfix.GetOr(""));
  }

  /** Renaming a postfix to itself changes nothing. */
  lemma RenameToSame(json: string, postfix: string)
    ensures RenameControls(json, Some(postfix), Some(postfix)) == json
  {
    if !IsNullOrWhiteSpace(Some(postfix)) {
      ReplaceSelf(json, postfix);
    }
  }
}
