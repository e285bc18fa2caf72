/**
 * The names under which an app's metadata files are kept: the file-name map
 * built from the app info (background image and icons), and the fixed name
 * the logo is renamed to.
 */
module Metadata {
  import opened Wrappers
  import opened Text
  import opened Paths
  import opened FileSystem

  const BackgroundImage: string := "BackgroundImage.png"
  const IconsFolder: string := "Icons"
  const LogoImage: string := "Logo"

  /** Dictionary.Add on a key already present throws; the key is kept here. */
  datatype MappingError = DuplicateKey(key: string)

  /** An icon's key as a file name: a trailing "Uri" becomes ".png". */
  function IconFileName(key: string): (r: string)
    ensures EndsWith(key, "Uri") ==> |r| == |key| + 1 && r[..|key| - 3] == key[..|key| - 3] && EndsWith(r, ".png")
    ensures !EndsWith(key, "Uri") ==> r == key
  {
    if EndsWith(key, "Uri") then key[..|key| - 3] + ".png" else key
  }

  lemma IconFileNameOfUri(stem: string)
    ensures IconFileName(stem + "Uri") == stem + ".png"
  {
    assert EndsWith(stem + "Uri", "Uri") by {
      assert (stem + "Uri")[|stem|..] == "Uri";
    }
    assert (stem + "Uri")[..|stem|] == stem;
  }

  /** Where an icon file goes: Path.Join("Icons", file name of the key). */
  function IconPath(key: string): (r: string)
    ensures StartsWith(r, IconsFolder) && EndsWith(r, IconFileName(key))
    ensures IconFileName(key) != "" && NoSeparator(IconFileName(key)) ==>
      r == IconsFolder + [DirectorySeparator] + IconFileName(key)
  {
    PathJoin(IconsFolder, IconFileName(key))
  }

  /** A plain icon file name lands in the Icons folder under that name. */
  lemma IconPathPlacement(key: string)
    requires IconFileName(key) != "" && NoSeparator(IconFileName(key))
    ensures GetFileName(IconPath(key)) == IconFileName(key) && DirectoryName(IconPath(key)) == IconsFolder
  {
    var n := IconFileName(key);
    var r := IconPath(key);
    assert r[|r| - |n| - 1] == DirectorySeparator;
    FileNameOfSuffix(r, n);
    assert LastSeparatorBefore(r, |r|) == |IconsFolder|;
  }

  /** The icon path of an ordinary icon key: "SmallIconUri" goes to Icons\SmallIcon.png. */
  lemma SmallIconPath()
    ensures IconPath("SmallIconUri") == "Icons\\SmallIcon.png"
  {
    IconFileNameOfUri("SmallIcon");
    assert "SmallIconUri" == "SmallIcon" + "Uri";
  }

  /** The map after adding each icon's value (its file) with the icon path of its key, in order. */
  function AddIcons(m: map<string, string>, icons: seq<(string, string)>): Result<map<string, string>, MappingError>
    decreases |icons|
  {
    if icons == [] then Ok(m)
    else if icons[0].1 in m then Err(DuplicateKey(icons[0].1))
    else AddIcons(m[icons[0].1 := IconPath(icons[0].0)], icons[1..])
  }

  /** The whole mapping: the background image first, then the icons. */
  function FileMappings(backgroundImage: string, icons: seq<(string, string)>): Result<map<string, string>, MappingError> {
    AddIcons(map[backgroundImage := BackgroundImage], icons)
  }

  /** GetMetadataFileMappings: the dictionary filled in a loop over the icons. */
  method GetMetadataFileMappings(backgroundImage: string, icons: seq<(string, string)>)
    returns (r: Result<map<string, string>, MappingError>)
    ensures r == FileMappings(backgroundImage, icons)
  {
    var fileMapping := map[backgroundImage := BackgroundImage];
    var i := 0;
    while i < |icons|
      invariant 0 <= i <= |icons|
      invariant FileMappings(backgroundImage, icons) == AddIcons(fileMapping, icons[i..])
      decreases |icons| - i
    {
      AddIconsAt(fileMapping, icons, i);
      var key := icons[i].0;
      if EndsWith(key, "Uri") {
        key := key[..|key| - 3] + ".png";
      }
      assert PathJoin(IconsFolder, key) == IconPath(icons[i].0);
      if icons[i].1 in fileMapping {
        return Err(DuplicateKey(icons[i].1));
      }
      fileMapping := fileMapping[icons[i].1 := PathJoin(IconsFolder, key)];
      i := i + 1;
    }
    assert icons[i..] == [];
    return Ok(fileMapping);
  }

  /** One turn of the icon loop, as AddIcons takes it. */
  lemma AddIconsAt(m: map<string, string>, icons: seq<(string, string)>, i: nat)
    requires i < |icons|
    ensures AddIcons(m, icons[i..]) ==
      if icons[i].1 in m then Err(DuplicateKey(icons[i].1)) else AddIcons(m[icons[i].1 := IconPath(icons[i].0)], icons[i + 1..])
  {
    assert icons[i..][0] == icons[i] && icons[i..][1..] == icons[i + 1..];
  }

  /** The file names of the icons, in order. */
  function IconFiles(icons: seq<(string, string)>): (r: seq<string>)
    ensures |r| == |icons| && forall i :: 0 <= i < |icons| ==> r[i] == icons[i].1
    decreases |icons|
  {
    if icons == [] then [] else [icons[0].1] + IconFiles(icons[1..])
  }

  predicate Distinct(names: seq<string>) {
    forall i, j :: 0 <= i < j < |names| ==> names[i] != names[j]
  }

  lemma DistinctCons(x: string, names: seq<string>)
    ensures Distinct([x] + names) <==> x !in names && Distinct(names)
  {
    var all := [x] + names;
    if x !in names && Distinct(names) {
      forall i, j | 0 <= i < j < |all| ensures all[i] != all[j] {
        if i > 0 {
          assert all[i] == names[i - 1] && all[j] == names[j - 1];
        } else {
          assert all[j] == names[j - 1];
        }
      }
    }
    if Distinct(all) {
      forall i, j | 0 <= i < j < |names| ensures names[i] != names[j] {
        assert all[i + 1] == names[i] && all[j + 1] == names[j];
      }
      forall j | 0 <= j < |names| ensures names[j] != x {
        assert all[0] == x && all[j + 1] == names[j];
        assert all[0] != all[j + 1];
      }
    }
  }

  /** Adding succeeds iff no icon file is already in the map and no two icons share a file. */
  lemma {:induction false} AddIconsOkIff(m: map<string, string>, icons: seq<(string, string)>)
    ensures AddIcons(m, icons).Ok? <==>
      Distinct(IconFiles(icons)) && forall f :: f in IconFiles(icons) ==> f !in m
    decreases |icons|
  {
    if icons != [] {
      var x := icons[0].1;
      var m' := m[x := IconPath(icons[0].0)];
      var tail := icons[1..];
      AddIconsOkIff(m', tail);
      DistinctCons(x, IconFiles(tail));
      assert IconFiles(icons) == [x] + IconFiles(tail);
    }
  }

  /** After a successful add the map holds the old keys and the icon files, and the old entries are kept. */
  lemma {:induction false} AddIconsKeeps(m: map<string, string>, icons: seq<(string, string)>)
    requires AddIcons(m, icons).Ok?
    ensures forall f :: f in AddIcons(m, icons).value <==> f in m || f in IconFiles(icons)
    ensures forall k :: k in m ==> AddIcons(m, icons).value[k] == m[k]
    decreases |icons|
  {
    if icons != [] {
      var x := icons[0].1;
      var m' := m[x := IconPath(icons[0].0)];
      var tail := icons[1..];
      AddIconsKeeps(m', tail);
      assert IconFiles(icons) == [x] + IconFiles(tail);
    }
  }

  /** After a successful add every icon file maps to the icon path of its key. */
  lemma {:induction false} AddIconsEntries(m: map<string, string>, icons: seq<(string, string)>)
    requires AddIcons(m, icons).Ok?
    ensures forall i :: 0 <= i < |icons| ==>
      (icons[i].1 in AddIcons(m, icons).value && AddIcons(m, icons).value[icons[i].1] == IconPath(icons[i].0))
    decreases |icons|
  {
    if icons != [] {
      var tail := icons[1..];
      AddIconsFirstEntry(m, icons);
      AddIconsEntries(m[icons[0].1 := IconPath(icons[0].0)], tail);
      forall i | 0 < i < |icons|
        ensures icons[i].1 in AddIcons(m, icons).value && AddIcons(m, icons).value[icons[i].1] == IconPath(icons[i].0)
      {
        assert tail[i - 1] == icons[i];
      }
    }
  }

  /** The first icon's entry survives the rest of the adds. */
  lemma AddIconsFirstEntry(m: map<string, string>, icons: seq<(string, string)>)
    requires icons != [] && AddIcons(m, icons).Ok?
    ensures icons[0].1 in AddIcons(m, icons).value && AddIcons(m, icons).value[icons[0].1] == IconPath(icons[0].0)
  {
    var m' := m[icons[0].1 := IconPath(icons[0].0)];
    assert AddIcons(m, icons) == AddIcons(m', icons[1..]);
    AddIconsKeeps(m', icons[1..]);
    assert icons[0].1 in m';
  }

  /**
   * The mapping succeeds iff the background image and the icon files are all
   * different; it then maps the background image to "BackgroundImage.png" and
   * each icon file to its icon path, and holds nothing else.
   */
  lemma FileMappingsMeaning(backgroundImage: string, icons: seq<(string, string)>)
    ensures FileMappings(backgroundImage, icons).Ok? <==> Distinct([backgroundImage] + IconFiles(icons))
    ensures FileMappings(backgroundImage, icons).Ok? ==>
      var r := FileMappings(backgroundImage, icons).value;
      && (forall f :: f in r <==> f == backgroundImage || f in IconFiles(icons))
      && r[backgroundImage] == BackgroundImage
      && (forall i :: 0 <= i < |icons| ==> r[icons[i].1] == IconPath(icons[i].0))
  {
    var m := map[backgroundImage := BackgroundImage];
    AddIconsOkIff(m, icons);
    DistinctCons(backgroundImage, IconFiles(icons));
    if FileMappings(backgroundImage, icons).Ok? {
      AddIconsKeeps(m, icons);
      AddIconsEntries(m, icons);
    }
  }

  /** The target name of the logo: "Logo" followed by the original extension. */
  function LogoName(logoFileName: string): (r: string)
    ensures GetExtension(r) == GetExtension(logoFileName)
    ensures r != "" && NoSeparator(r)
    ensures FileNameWithoutExtension(r) == LogoImage
  {
    var e := GetExtension(logoFileName);
    if e == [] then
      NoDotNoExtension(LogoImage);
      FileNameOfSuffix(LogoImage, LogoImage);
      assert LastDotBefore(LogoImage, |LogoImage|) < 0 by {
        forall k | 0 <= k < |LogoImage| ensures LogoImage[k] != '.' {
          assert LogoImage[k] in "Logo";
        }
      }
      LogoImage
    else
      ExtensionOfSuffix(LogoImage, e);
      FileNameOfSuffix(LogoImage + e, LogoImage + e);
      StripLastDot(LogoImage, e);
      assert (LogoImage + e)[..|LogoImage|] == LogoImage;
      LogoImage + e
  }

  /**
   * RenameAutoNamedFiles: when the publish info names a logo file, that file in
   * the resources folder is renamed to "Logo" plus its extension, after deleting
   * whatever had that name; with no logo file nothing happens.
   */
  method RenameAutoNamedFiles(fs: FileSystem, resourceFilesPath: string, logoFileName: Option<string>)
    modifies fs
    ensures IsNullOrEmpty(logoFileName) ==> fs.log == old(fs.log)
    ensures !IsNullOrEmpty(logoFileName) ==>
      var toName := PathCombine(resourceFilesPath, LogoName(logoFileName.value));
      fs.log == old(fs.log) + [DeleteFile(toName), MoveFile(PathCombine(resourceFilesPath, logoFileName.value), toName)]
  {
    if !IsNullOrEmpty(logoFileName) {
      var fromName := PathCombine(resourceFilesPath, logoFileName.value);
      var toName := PathCombine(resourceFilesPath, LogoName(logoFileName.value));
      fs.Delete(toName);
      fs.Move(fromName, toName);
    }
  }

  /** The renamed logo sits in the resources folder under its new name. */
  lemma LogoTargetName(resourceFilesPath: string, logoFileName: string)
    ensures GetFileName(PathCombine(resourceFilesPath, LogoName(logoFileName))) == LogoName(logoFileName)
  {
    FileNameOfCombined(resourceFilesPath, LogoName(logoFileName));
  }
}
